/** The tRPC wire format: a 16-octet fixed header, a protobuf header, a body. */
module TrpcProtocol {
  import opened Bytes
  import opened Framing

  const MAGIC: u16 := 0x930
  const PREFIX_SPACE := 16

  // Stream frame types; 1 opens a stream.
  const UNARY: byte := 0
  const STREAM_DATA: byte := 2
  const STREAM_FEEDBACK: byte := 3
  const STREAM_CLOSE: byte := 4

  /** The fixed header without its magic number. */
  datatype FixedHeader = FixedHeader(dataFrameType: byte, streamFrameType: byte, dataFrameSize: u32,
                                     pbHeaderSize: u16, streamId: u32, reserved: u16)
  {
    function HeaderSize(): (n: nat) { pbHeaderSize + PREFIX_SPACE }
  }

  function HeaderAt(b: seq<byte>): (h: FixedHeader)
    requires |b| >= PREFIX_SPACE
  {
    FixedHeader(b[2], b[3], U32At(b, 4), U16At(b, 8), U32At(b, 10), U16At(b, 14))
  }

  predicate HasMagic(b: seq<byte>)
    requires |b| >= PREFIX_SPACE
  {
    U16At(b, 0) == MAGIC
  }

  function HeaderOctets(h: FixedHeader): (b: seq<byte>)
    ensures |b| == PREFIX_SPACE
  {
    PutU16(MAGIC) + [h.dataFrameType, h.streamFrameType] + PutU32(h.dataFrameSize) +
    PutU16(h.pbHeaderSize) + PutU32(h.streamId) + PutU16(h.reserved)
  }

  /** Sixteen octets decide. */
  lemma HeaderStable(b: seq<byte>, c: seq<byte>)
    requires |b| >= PREFIX_SPACE
    ensures HeaderAt(b + c) == HeaderAt(b) && HasMagic(b + c) == HasMagic(b)
  {
    var d := b + c;
    assert forall i | 0 <= i < PREFIX_SPACE :: d[i] == b[i];
  }

  /** What is written is read back, field by field, whatever follows. */
  lemma {:induction false} HeaderReadsBack(h: FixedHeader, rest: seq<byte>)
    ensures HasMagic(HeaderOctets(h) + rest) && HeaderAt(HeaderOctets(h) + rest) == h
  {
    hide PutU16, PutU32, U16At, U32At;
    var b := HeaderOctets(h) + rest;
    var m, t, f := PutU16(MAGIC), [h.dataFrameType, h.streamFrameType], PutU32(h.dataFrameSize);
    var p, s, r := PutU16(h.pbHeaderSize), PutU32(h.streamId), PutU16(h.reserved);
    assert b[2] == t[0] && b[3] == t[1];
    assert b == [] + m + (t + f + p + s + r + rest);
    PutAnywhere16([], MAGIC, t + f + p + s + r + rest);
    assert b == (m + t) + f + (p + s + r + rest);
    PutAnywhere32(m + t, h.dataFrameSize, p + s + r + rest);
    assert b == (m + t + f) + p + (s + r + rest);
    PutAnywhere16(m + t + f, h.pbHeaderSize, s + r + rest);
    assert b == (m + t + f + p) + s + (r + rest);
    PutAnywhere32(m + t + f + p, h.streamId, r + rest);
    assert b == (m + t + f + p + s) + r + rest;
    PutAnywhere16(m + t + f + p + s, h.reserved, rest);
  }

  // ----- Frames -----

  /** Whether the protobuf parser takes the header of a frame of the given type. */
  type Parser = (byte, seq<byte>) -> bool

  /** Data and feedback frames carry no header to parse. */
  predicate AcceptsHeader(parses: Parser, streamFrameType: byte, raw: seq<byte>) {
    streamFrameType == STREAM_DATA || streamFrameType == STREAM_FEEDBACK || parses(streamFrameType, raw)
  }

  /** The headers the decoder is written for: the sizes nest and the type is known. */
  predicate WellFormed(h: FixedHeader) {
    h.HeaderSize() <= h.dataFrameSize && h.streamFrameType <= STREAM_CLOSE
  }

  /** The part of a frame that is handed to the parser, and how many octets must be there first. */
  function RawEnd(h: FixedHeader): (n: nat) {
    if h.streamFrameType == UNARY then h.HeaderSize() else h.dataFrameSize
  }

  /** The specification of framing: as many octets as the fixed header announces. */
  function CutFrame(parses: Parser, s: seq<byte>): (r: Cut)
    ensures r.Whole? ==> PREFIX_SPACE <= r.size <= |s|
  {
    if |s| < PREFIX_SPACE then More
    else if !HasMagic(s) then Reject
    else
      var h := HeaderAt(s);
      if !WellFormed(h) then Stray
      else if |s| < RawEnd(h) then More
      else if !AcceptsHeader(parses, h.streamFrameType, s[PREFIX_SPACE..RawEnd(h)]) then Reject
      else if |s| < h.dataFrameSize then More
      else Whole(h.dataFrameSize, false)
  }

  lemma {:induction false} CutStable(parses: Parser, s: seq<byte>, t: seq<byte>)
    requires CutFrame(parses, s) != More
    ensures CutFrame(parses, s + t) == CutFrame(parses, s)
  {
    hide HeaderAt, HasMagic, AcceptsHeader;
    HeaderStable(s, t);
    var h := HeaderAt(s);
    if WellFormed(h) && |s| >= RawEnd(h) {
      SliceOfFront(s, t, PREFIX_SPACE, RawEnd(h));
    }
  }

  /** Octets are one whole frame exactly if they begin with the magic number, are as many as the frame
      size says, which leaves room for the headers, have a known frame type, and are data or feedback
      or acceptable to the parser: the protobuf header of a unary frame, all of a stream frame. */
  lemma {:induction false} WholeFrameIff(parses: Parser, b: seq<byte>)
    ensures CutFrame(parses, b) == Whole(|b|, false) <==>
              && |b| >= 16
              && b[0] == 0x09 && b[1] == 0x30
              && b[3] <= 4
              && U32At(b, 4) == |b| >= 16 + U16At(b, 8)
              && (b[3] == 2 || b[3] == 3 || parses(b[3], if b[3] == 0 then b[16..16 + U16At(b, 8)] else b[16..]))
  {
    if |b| >= 16 {
      assert HasMagic(b) <==> b[0] == 0x09 && b[1] == 0x30;
      hide U16At, U32At, HasMagic;
      assert b[16..|b|] == b[16..];
    }
  }

  /** The headers not guarded against are those with the magic number that leave no room for
      themselves or have an unknown frame type. */
  lemma {:induction false} StrayIff(parses: Parser, s: seq<byte>)
    ensures CutFrame(parses, s) == Stray <==>
              && |s| >= 16
              && s[0] == 0x09 && s[1] == 0x30
              && (U32At(s, 4) < 16 + U16At(s, 8) || s[3] > 4)
  {
    if |s| >= 16 {
      assert HasMagic(s) <==> s[0] == 0x09 && s[1] == 0x30;
      hide U16At, U32At, HasMagic;
    }
  }

  /** No wait is for ever: there are octets after which the front of the stream is a frame, is
      rejected, or is a header that is not guarded against. */
  lemma {:induction false} WaitEnds(parses: Parser, s: seq<byte>) returns (c: seq<byte>)
    ensures CutFrame(parses, s + c) != More
  {
    hide HeaderAt, HasMagic, AcceptsHeader;
    var c0 := seq(16, _ => 0);
    var s0 := s + c0;
    var h := HeaderAt(s0);
    var c1 := seq(h.dataFrameSize, _ => 0);
    HeaderStable(s0, c1);
    c := c0 + c1;
    assert s + c == s0 + c1;
  }

  // ----- Encoding the fixed header -----

  method EncodeFixedHeader(h: FixedHeader, buffer: Buffer)
    modifies buffer
    ensures buffer.data == old(buffer.data) + HeaderOctets(h)
  {
    hide PutU16, PutU32;
    ghost var b := buffer.data;
    buffer.Add(PutU16(MAGIC));
    buffer.Add([h.dataFrameType]);
    buffer.Add([h.streamFrameType]);
    buffer.Add(PutU32(h.dataFrameSize));
    buffer.Add(PutU16(h.pbHeaderSize));
    buffer.Add(PutU32(h.streamId));
    buffer.Add(PutU16(h.reserved));
    assert buffer.data == b + HeaderOctets(h);
  }

  /** Fails without touching the buffer when there is no header with the magic number. */
  method DecodeFixedHeader(buffer: Buffer, drain: bool) returns (ok: bool, h: FixedHeader)
    modifies buffer
    ensures ok == (|old(buffer.data)| >= PREFIX_SPACE && HasMagic(old(buffer.data)))
    ensures ok ==> h == HeaderAt(old(buffer.data))
    ensures buffer.data == if ok && drain then old(buffer.data)[PREFIX_SPACE..] else old(buffer.data)
  {
    h := FixedHeader(0, 0, 0, 0, 0, 0);
    if |buffer.data| < PREFIX_SPACE {
      return false, h;
    }
    var pos := 0;
    if U16At(buffer.data, pos) != MAGIC {
      return false, h;
    }
    pos := pos + 2;
    h := h.(dataFrameType := buffer.data[pos]);
    pos := pos + 1;
    h := h.(streamFrameType := buffer.data[pos]);
    pos := pos + 1;
    h := h.(dataFrameSize := U32At(buffer.data, pos));
    pos := pos + 4;
    h := h.(pbHeaderSize := U16At(buffer.data, pos));
    pos := pos + 2;
    h := h.(streamId := U32At(buffer.data, pos));
    pos := pos + 4;
    h := h.(reserved := U16At(buffer.data, pos));
    pos := pos + 2;
    if drain {
      buffer.Drain(pos);
    }
    ok := true;
  }
}
