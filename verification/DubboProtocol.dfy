/** The Dubbo wire format: the 16-octet header, the body behind it and the heartbeat reply. */
module DubboProtocol {
  import opened Bytes
  import opened Framing

  const MAGIC: u16 := 0xdabb
  const MESSAGE_SIZE := 16
  const MAX_BODY_SIZE := 16 * 1024 * 1024
  const HESSIAN2: byte := 2
  const OK: byte := 20

  datatype MessageType = Request | Response | Oneway | Exception | HeartbeatRequest | HeartbeatResponse

  predicate IsHeartbeat(t: MessageType) {
    t == HeartbeatRequest || t == HeartbeatResponse
  }

  // The flag octet: request, two-way, event, and five bits of serialization type.
  predicate IsRequest(flag: byte) { flag >= 0x80 }
  predicate IsTwoWay(flag: byte) { flag / 0x40 % 2 == 1 }
  predicate IsEvent(flag: byte) { flag / 0x20 % 2 == 1 }
  function SerializationOf(flag: byte): (s: byte) { flag % 0x20 }

  predicate IsValidResponseStatus(status: byte) {
    status in {20, 30, 31, 40, 50, 60, 70, 90, 100}
  }

  /** `status` is the status octet, which only responses give a meaning. */
  datatype Header = Header(messageType: MessageType, requestId: i64, bodySize: nat, status: byte)

  datatype HeaderResult = NeedMore | Invalid | Decoded(header: Header)

  function TypeOf(flag: byte): (t: MessageType) {
    if IsRequest(flag) then
      if IsEvent(flag) then HeartbeatRequest else if IsTwoWay(flag) then Request else Oneway
    else if IsEvent(flag) then HeartbeatResponse
    else Response
  }

  /** Only a request's serialization type and only a response's status are checked. */
  predicate IsValidInfo(flag: byte, status: byte) {
    if IsRequest(flag) then SerializationOf(flag) == HESSIAN2 else IsValidResponseStatus(status)
  }

  /** A flag octet put together from its parts is taken apart again, and a message is a heartbeat
      if it is an event, else a request, answered or not, or a response. */
  lemma FlagReadsBack(request: bool, twoWay: bool, event: bool, serialization: byte)
    requires serialization < 0x20
    ensures var flag: byte := (if request then 0x80 else 0) + (if twoWay then 0x40 else 0) +
                              (if event then 0x20 else 0) + serialization;
            && IsRequest(flag) == request
            && SerializationOf(flag) == serialization
            && (event ==> TypeOf(flag) == if request then HeartbeatRequest else HeartbeatResponse)
            && (!event && request ==> TypeOf(flag) == if twoWay then Request else Oneway)
            && (!event && !request ==> TypeOf(flag) == Response)
  {
    var low := (if event then 0x20 else 0) + serialization as int;
    var mid := (if twoWay then 0x40 else 0) + low;
    var flag := (if request then 0x80 else 0) + mid;
    assert flag / 0x20 == (if request then 4 else 0) + (if twoWay then 2 else 0) + (if event then 1 else 0);
    assert flag / 0x40 == (if request then 2 else 0) + (if twoWay then 1 else 0);
  }

  function DecodeHeader(b: seq<byte>): (r: HeaderResult) {
    if |b| < MESSAGE_SIZE then NeedMore
    else if U16At(b, 0) != MAGIC then Invalid
    else
      var bodySize := Signed32(U32At(b, 12));
      if bodySize > MAX_BODY_SIZE || bodySize < 0 || !IsValidInfo(b[2], b[3]) then Invalid
      else Decoded(Header(TypeOf(b[2]), Signed64(U64At(b, 4)), bodySize, b[3]))
  }

  /** Sixteen octets decide. */
  lemma HeaderStable(b: seq<byte>, c: seq<byte>)
    requires |b| >= MESSAGE_SIZE
    ensures DecodeHeader(b + c) == DecodeHeader(b) == DecodeHeader(b[..MESSAGE_SIZE])
    ensures DecodeHeader(b) != NeedMore
  {
    var d, e := b + c, b[..MESSAGE_SIZE];
    assert forall i | 0 <= i < MESSAGE_SIZE :: d[i] == b[i] && e[i] == b[i];
  }

  // ----- Writing headers -----

  function HeaderOctets(flag: byte, status: byte, requestId: i64, bodySize: u32): (b: seq<byte>)
    ensures |b| == MESSAGE_SIZE
  {
    PutU16(MAGIC) + [flag, status] + PutU64(Unsigned64(requestId)) + PutU32(bodySize)
  }

  /** Decoding reads every field from where it was written, and rejects exactly an oversized body,
      a request that is not Hessian2 and a response with an unknown status. */
  lemma {:induction false} HeaderReadsBack(flag: byte, status: byte, requestId: i64, bodySize: u32, rest: seq<byte>)
    ensures DecodeHeader(HeaderOctets(flag, status, requestId, bodySize) + rest) ==
            if bodySize <= MAX_BODY_SIZE && IsValidInfo(flag, status)
            then Decoded(Header(TypeOf(flag), requestId, bodySize, status))
            else Invalid
  {
    hide IsValidInfo, TypeOf, PutU16, PutU32, PutU64;
    var b := HeaderOctets(flag, status, requestId, bodySize) + rest;
    var a, d, e := PutU16(MAGIC), PutU64(Unsigned64(requestId)), PutU32(bodySize);
    var mid := [flag, status];
    assert b == [] + a + (mid + d + e + rest);
    PutAnywhere16([], MAGIC, mid + d + e + rest);
    assert b[2] == flag && b[3] == status;
    assert b == (a + mid) + d + (e + rest);
    PutAnywhere64(a + mid, Unsigned64(requestId), e + rest);
    assert b == (a + mid + d) + e + rest;
    PutAnywhere32(a + mid + d, bodySize, rest);
  }

  /** Every 16 octets with the magic number are the header written from their own fields. */
  lemma HeaderIsWritten(b: seq<byte>)
    requires |b| == MESSAGE_SIZE && U16At(b, 0) == MAGIC
    ensures b == HeaderOctets(b[2], b[3], Signed64(U64At(b, 4)), U32At(b, 12))
  {
    Rewrite16(b[..2]);
    Rewrite64(b[4..12]);
    Rewrite32(b[12..]);
    assert b == b[..2] + [b[2], b[3]] + b[4..12] + b[12..];
    assert U64At(b, 4) == U64At(b[4..12], 0) && U32At(b, 12) == U32At(b[12..], 0) && U16At(b, 0) == U16At(b[..2], 0);
  }

  // ----- Frames -----

  /** Whether the deserializer takes a body; false stands for an exception. A response that is
      not Ok is not deserialized. */
  type Deserializer = (Header, seq<byte>) -> bool

  predicate AcceptsBody(accepts: Deserializer, h: Header, body: seq<byte>) {
    (h.messageType == Response && h.status != OK) || accepts(h, body)
  }

  /** The specification of framing: one header, then as many octets as it announces. */
  function CutFrame(accepts: Deserializer, s: seq<byte>): (r: Cut)
    ensures r.Whole? ==> MESSAGE_SIZE <= r.size <= |s|
  {
    match DecodeHeader(s)
    case NeedMore => More
    case Invalid => Reject
    case Decoded(h) =>
      var n := MESSAGE_SIZE + h.bodySize;
      if |s| < n then More
      else if IsHeartbeat(h.messageType) then Whole(n, true)
      else if AcceptsBody(accepts, h, s[MESSAGE_SIZE..n]) then Whole(n, false)
      else Reject
  }

  lemma {:induction false} CutStable(accepts: Deserializer, s: seq<byte>, t: seq<byte>)
    requires CutFrame(accepts, s) != More
    ensures CutFrame(accepts, s + t) == CutFrame(accepts, s)
  {
    hide DecodeHeader, AcceptsBody;
    assert |s| >= MESSAGE_SIZE by { ShortNeedsMore(s); }
    HeaderStable(s, t);
    var r := DecodeHeader(s);
    if r.Decoded? {
      SliceOfFront(s, t, MESSAGE_SIZE, MESSAGE_SIZE + r.header.bodySize);
    }
  }

  /** Octets are one whole frame exactly if they begin with the magic number, are as many as the
      length field says and within the limit, have a known serialization type as a request or a
      known status as a response, and are a heartbeat, a response that is not Ok, or acceptable to
      the deserializer. They are a heartbeat exactly if the event bit is set. */
  lemma {:induction false} WholeFrameIff(accepts: Deserializer, b: seq<byte>, heartbeat: bool)
    ensures CutFrame(accepts, b) == Whole(|b|, heartbeat) <==>
              && |b| >= 16
              && b[0] == 0xda && b[1] == 0xbb
              && U32At(b, 12) == |b| - 16 <= 0x100_0000
              && (if b[2] >= 0x80 then b[2] % 0x20 == 2 else b[3] in {20, 30, 31, 40, 50, 60, 70, 90, 100})
              && heartbeat == (b[2] / 0x20 % 2 == 1)
              && (heartbeat || (b[2] < 0x80 && b[3] != 20) || accepts(DecodeHeader(b).header, b[16..]))
  {
    hide U32At, U64At, Signed64;
    if |b| >= 16 {
      assert U16At(b, 0) == MAGIC <==> b[0] == 0xda && b[1] == 0xbb;
      assert b[16..|b|] == b[16..];
    }
  }

  /** No wait is for ever: there are octets after which the front of the stream is a frame or is
      rejected. */
  lemma {:induction false} WaitEnds(accepts: Deserializer, s: seq<byte>) returns (c: seq<byte>)
    ensures CutFrame(accepts, s + c) != More
  {
    hide DecodeHeader, AcceptsBody;
    var c0 := seq(16, _ => 0);
    var s0 := s + c0;
    ShortNeedsMore(s0);
    var n := if DecodeHeader(s0).Decoded? then DecodeHeader(s0).header.bodySize else 0;
    var c1 := seq(n, _ => 0);
    HeaderStable(s0, c1);
    c := c0 + c1;
    assert s + c == s0 + c1;
  }

  lemma ShortNeedsMore(s: seq<byte>)
    ensures |s| < MESSAGE_SIZE <==> DecodeHeader(s) == NeedMore
  {
  }

  // ----- Heartbeats -----

  function HeartbeatReply(requestId: i64): (b: seq<byte>) {
    HeaderOctets(0x22, OK, requestId, 1) + ['N' as int]
  }

  /** The reply to a heartbeat: whatever the buffer held is replaced by it. */
  method EncodeHeartbeat(requestId: i64, buffer: Buffer)
    modifies buffer
    ensures buffer.data == HeartbeatReply(requestId)
  {
    buffer.Drain(|buffer.data|);
    buffer.Add(PutU16(MAGIC));
    var flag: byte := HESSIAN2 + 0x20;  // the event bit is clear in the serialization type
    buffer.Add([flag]);
    buffer.Add([OK]);
    buffer.Add(PutU64(Unsigned64(requestId)));
    buffer.Add(PutU32(1));
    buffer.Add(['N' as int]);
  }

  /** A heartbeat reply is itself one whole heartbeat frame with the id of the request. */
  lemma {:induction false} HeartbeatReplyReadsBack(accepts: Deserializer, requestId: i64, rest: seq<byte>)
    ensures DecodeHeader(HeartbeatReply(requestId) + rest) == Decoded(Header(HeartbeatResponse, requestId, 1, OK))
    ensures CutFrame(accepts, HeartbeatReply(requestId) + rest) == Whole(17, true)
    ensures |HeartbeatReply(requestId)| == 17 && HeartbeatReply(requestId)[16] == 0x4e
  {
    hide PutU16, PutU32, PutU64, Unsigned64;
    var b := HeaderOctets(0x22, OK, requestId, 1);
    assert HeartbeatReply(requestId) + rest == b + (['N' as int] + rest);
    HeaderReadsBack(0x22, OK, requestId, 1, ['N' as int] + rest);
    hide DecodeHeader;
  }
}
