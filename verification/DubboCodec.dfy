/** The resumable Dubbo decoder. It moves the header out of the buffer before the body has
    arrived, so between calls part of a frame is held in the machine. */
module DubboCodec {
  import opened Bytes
  import opened Framing
  import opened DubboProtocol

  datatype ProtocolState = OnDecodeStreamHeader | OnDecodeStreamData | WaitForData | Done

  /** Where a handler goes next; `Throw` stands for an exception. */
  datatype Next = Next(state: ProtocolState) | Throw

  class DecoderStateMachine {
    const accepts: Deserializer
    var state: ProtocolState
    var header: Header
    var originMessage: seq<byte>

    constructor (accepts: Deserializer)
      ensures this.accepts == accepts && Holding() && state == OnDecodeStreamHeader && originMessage == []
    {
      this.accepts := accepts;
      state := OnDecodeStreamHeader;
      header := Header(Request, 0, 0, 0);
      originMessage := [];
    }

    /** Between calls the machine holds nothing, or exactly the header it has decoded. */
    ghost predicate Holding()
      reads this
    {
      match state
      case OnDecodeStreamHeader => originMessage == []
      case OnDecodeStreamData =>
        && |originMessage| == MESSAGE_SIZE
        && DecodeHeader(originMessage) == HeaderResult.Decoded(header)
        && !IsHeartbeat(header.messageType)
      case _ => false
    }

    method HandleHeader(buffer: Buffer) returns (next: Next)
      requires Holding() && state == OnDecodeStreamHeader
      modifies this, buffer
      ensures state == old(state)
      ensures originMessage + buffer.data == old(buffer.data)
      ensures next == Next(WaitForData) ==> CutFrame(accepts, old(buffer.data)) == More && originMessage == []
      ensures next == Throw ==> CutFrame(accepts, old(buffer.data)) == Reject
      ensures next == Next(Done) ==>
                && CutFrame(accepts, old(buffer.data)) == Whole(|originMessage|, true)
                && IsHeartbeat(header.messageType)
      ensures next == Next(OnDecodeStreamData) ==>
                && |originMessage| == MESSAGE_SIZE
                && DecodeHeader(originMessage) == HeaderResult.Decoded(header)
                && !IsHeartbeat(header.messageType)
      ensures next != Next(OnDecodeStreamHeader)
    {
      hide DecodeHeader;
      ghost var b := buffer.data;
      var ret := DecodeHeader(buffer.data);
      if ret.NeedMore? {
        return Next(WaitForData);
      }
      if ret.Invalid? {
        return Throw;
      }
      ShortNeedsMore(b);
      HeaderStable(b, []);
      header := ret.header;
      originMessage := [];
      if IsHeartbeat(header.messageType) {
        if |buffer.data| < MESSAGE_SIZE + header.bodySize {
          return Next(WaitForData);
        }
        originMessage := buffer.data[..MESSAGE_SIZE + header.bodySize];
        buffer.Drain(MESSAGE_SIZE + header.bodySize);
        return Next(Done);
      }
      originMessage := buffer.data[..MESSAGE_SIZE];
      buffer.Drain(MESSAGE_SIZE);
      return Next(OnDecodeStreamData);
    }

    method HandleData(buffer: Buffer) returns (next: Next)
      requires Holding() && state == OnDecodeStreamData
      modifies this, buffer
      ensures state == old(state) && header == old(header)
      ensures originMessage + buffer.data == old(originMessage + buffer.data)
      ensures next == Next(WaitForData) ==>
                && CutFrame(accepts, old(originMessage + buffer.data)) == More
                && Holding()
      ensures next == Throw ==> CutFrame(accepts, old(originMessage + buffer.data)) == Reject
      ensures next == Next(Done) ==>
                CutFrame(accepts, old(originMessage + buffer.data)) == Whole(|originMessage|, false)
      ensures next == Throw || next == Next(WaitForData) || next == Next(Done)
    {
      hide DecodeHeader;
      ghost var p := originMessage + buffer.data;
      HeaderStable(originMessage, buffer.data);
      assert |buffer.data| >= header.bodySize ==>
               p[MESSAGE_SIZE..MESSAGE_SIZE + header.bodySize] == buffer.data[..header.bodySize];
      if |buffer.data| < header.bodySize {
        return Next(WaitForData);
      }
      if !AcceptsBody(accepts, header, buffer.data[..header.bodySize]) {
        return Throw;
      }
      originMessage := originMessage + buffer.data[..header.bodySize];
      buffer.Drain(header.bodySize);
      return Next(Done);
    }

    /** Running on any buffer gives what the cut of header held plus buffer says, and moves octets
        without changing, losing or reordering any. */
    method Run(buffer: Buffer) returns (status: DecodeStatus)
      requires Holding()
      modifies this, buffer
      ensures Agrees(status, CutFrame(accepts, old(originMessage + buffer.data)))
      ensures status != Failed ==> originMessage + buffer.data == old(originMessage + buffer.data)
      ensures status == NeedData ==> Holding()
      ensures status == Ready ==>
                CutFrame(accepts, old(originMessage + buffer.data))
                == Whole(|originMessage|, IsHeartbeat(header.messageType))
    {
      hide DecodeHeader, CutFrame;
      ghost var p := originMessage + buffer.data;
      while state != Done
        invariant originMessage + buffer.data == p
        invariant state != Done ==> Holding()
        invariant state == Done ==> CutFrame(accepts, p) == Whole(|originMessage|, IsHeartbeat(header.messageType))
        decreases if state == OnDecodeStreamHeader then 2 else if state == OnDecodeStreamData then 1 else 0
      {
        var next;
        if state == OnDecodeStreamHeader {
          assert originMessage + buffer.data == buffer.data;
          next := HandleHeader(buffer);
        } else {
          next := HandleData(buffer);
        }
        if next == Throw {
          return Failed;
        }
        if next.state == WaitForData {
          return NeedData;
        }
        state := next.state;
      }
      status := Ready;
    }
  }

  class DubboCodec {
    const accepts: Deserializer
    var machine: DecoderStateMachine?
    var decodeStarted: bool

    constructor (accepts: Deserializer)
      ensures this.accepts == accepts && machine == null && Valid() && Held() == []
    {
      this.accepts := accepts;
      machine := null;
      decodeStarted := false;
    }

    ghost predicate Valid()
      reads this, machine
    {
      if decodeStarted then machine != null && machine.accepts == accepts && machine.Holding() else machine == null
    }

    /** The octets taken out of the buffer for the frame in progress. */
    function Held(): (b: seq<byte>)
      reads this, machine
    {
      if machine == null then [] else machine.originMessage
    }

    method Start()
      requires machine == null
      modifies this
      ensures Valid() && decodeStarted && fresh(machine) && machine.originMessage == []
    {
      machine := new DecoderStateMachine(accepts);
      decodeStarted := true;
    }

    method Complete()
      modifies this
      ensures machine == null && !decodeStarted
    {
      machine := null;
      decodeStarted := false;
    }

    /** One call of the codec: waits, fails or hands out exactly the frame at the front. */
    method Decode(buffer: Buffer) returns (status: DecodeStatus, message: seq<byte>, heartbeat: bool)
      requires Valid()
      modifies this, machine, buffer
      ensures Agrees(status, CutFrame(accepts, old(Held() + buffer.data)))
      ensures machine == old(machine) || machine == null || fresh(machine)
      ensures status != Failed ==> Valid()
      ensures status == NeedData ==> Held() + buffer.data == old(Held() + buffer.data)
      ensures status == Ready ==>
                && CutFrame(accepts, old(Held() + buffer.data)) == Whole(|message|, heartbeat)
                && Held() == []
                && message + buffer.data == old(Held() + buffer.data)
    {
      hide CutFrame, DecodeHeader;
      message, heartbeat := [], false;
      if !decodeStarted {
        Start();
      }
      status := machine.Run(buffer);
      if status == Ready {
        message, heartbeat := machine.originMessage, IsHeartbeat(machine.header.messageType);
        Complete();
      }
    }
  }
}
