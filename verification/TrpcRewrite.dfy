/** Rewriting a tRPC message in place: the protobuf header is parsed, its trans_info overridden by
    a mutation, and the frame put together again with both sizes recomputed. */
module TrpcRewrite {
  import opened Wrappers
  import opened Bytes
  import opened Framing
  import opened TrpcProtocol

  type Mutation = map<string, string>

  /** A parsed header: the map that is changed, and all the other fields. */
  datatype ProtocolHeader = ProtocolHeader(transInfo: map<string, string>, fields: nat)

  datatype Protobuf = Protobuf(parse: seq<byte> -> Option<ProtocolHeader>, serialize: ProtocolHeader -> seq<byte>)

  ghost predicate Lawful(pb: Protobuf) {
    forall h: ProtocolHeader :: pb.parse(pb.serialize(h)) == Some(h)
  }

  // ----- The specification -----

  const MAX_PB_HEADER := 0xffff

  /** A frame put together from its parts; the header size is cut to its 16 bits. */
  function Assembled(h: FixedHeader, raw: seq<byte>, body: seq<byte>): (f: seq<byte>) {
    HeaderOctets(Resized(h, |raw|, |body|)) + raw + body
  }

  function Resized(h: FixedHeader, raw: nat, body: nat): (r: FixedHeader) {
    h.(pbHeaderSize := raw % 0x1_0000, dataFrameSize := (raw % 0x1_0000 + PREFIX_SPACE + body) % 0x1_0000_0000)
  }

  /** The parts of a frame at the front of a buffer. */
  function RawOf(b: seq<byte>): (raw: seq<byte>)
    requires HoldsFrame(b)
  {
    b[PREFIX_SPACE..HeaderAt(b).HeaderSize()]
  }

  function BodyOf(b: seq<byte>): (body: seq<byte>)
    requires HoldsFrame(b)
  {
    b[HeaderAt(b).HeaderSize()..HeaderAt(b).dataFrameSize]
  }

  predicate HoldsFrame(b: seq<byte>) {
    |b| >= PREFIX_SPACE && HasMagic(b) && HeaderAt(b).HeaderSize() <= HeaderAt(b).dataFrameSize <= |b|
  }

  predicate Mutable(pb: Protobuf, b: seq<byte>) {
    HoldsFrame(b) && pb.parse(RawOf(b)).Some?
  }

  /** The header with its trans_info overridden. */
  function NewHeader(pb: Protobuf, b: seq<byte>, m: Mutation): (h: ProtocolHeader)
    requires Mutable(pb, b)
  {
    var h := pb.parse(RawOf(b)).value;
    h.(transInfo := h.transInfo + m)
  }

  function Mutated(pb: Protobuf, b: seq<byte>, m: Mutation): (f: seq<byte>)
    requires Mutable(pb, b)
  {
    Assembled(HeaderAt(b), pb.serialize(NewHeader(pb, b, m)), BodyOf(b))
  }

  // ----- The operation -----

  method ApplyMutation(transInfo: map<string, string>, mutation: Mutation) returns (r: map<string, string>)
    ensures r == transInfo + mutation
  {
    r := transInfo;
    var todo := mutation;
    while todo != map[]
      invariant r + todo == transInfo + mutation
      decreases |todo|
    {
      var k :| k in todo;
      MoveOne(r, todo, k);
      r := r[k := todo[k]];
      todo := todo - {k};
    }
  }

  lemma MoveOne(r: map<string, string>, todo: Mutation, k: string)
    requires k in todo
    ensures r[k := todo[k]] + (todo - {k}) == r + todo
    ensures |todo - {k}| < |todo|
  {
    assert todo == (todo - {k})[k := todo[k]];
  }

  /** What is left of a buffer that could not be rewritten: all of it without a header, else what is
      behind the headers that were taken out to be looked at. */
  function LeftAfterFailure(b: seq<byte>): (rest: seq<byte>) {
    if |b| < PREFIX_SPACE || !HasMagic(b) then b
    else if |b| < HeaderAt(b).dataFrameSize || |b| < HeaderAt(b).HeaderSize() then b[PREFIX_SPACE..]
    else b[HeaderAt(b).HeaderSize()..]
  }

  /** Succeeds exactly on a buffer with a whole frame whose header parses. The new frame goes
      behind whatever followed the old one. A frame must announce room for its own header. */
  method MutateHeader(buffer: Buffer, pb: Protobuf, mutation: Mutation) returns (ok: bool)
    requires var b := buffer.data;
             |b| >= PREFIX_SPACE && HasMagic(b) && HeaderAt(b).dataFrameSize <= |b| ==>
               HeaderAt(b).HeaderSize() <= HeaderAt(b).dataFrameSize
    modifies buffer
    ensures ok == Mutable(pb, old(buffer.data))
    ensures ok ==> var b := old(buffer.data);
                   buffer.data == b[HeaderAt(b).dataFrameSize..] + Mutated(pb, b, mutation)
    ensures !ok ==> buffer.data == LeftAfterFailure(old(buffer.data))
  {
    hide HeaderAt, HasMagic, HeaderOctets, Assembled;
    ghost var b := buffer.data;
    var size := |buffer.data|;
    var decoded, fixedHeader := DecodeFixedHeader(buffer, true);
    if !decoded {
      return false;
    }
    if size < fixedHeader.dataFrameSize {
      return false;
    }
    ghost var h := fixedHeader;
    var raw := buffer.data[..fixedHeader.pbHeaderSize];
    buffer.Drain(fixedHeader.pbHeaderSize);
    assert raw == RawOf(b);
    var parsed := pb.parse(raw);
    if parsed == None {
      return false;
    }
    var header := parsed.value;
    assert buffer.data == b[h.HeaderSize()..];
    var payload := fixedHeader.dataFrameSize - fixedHeader.HeaderSize();
    var body := buffer.data[..payload];
    buffer.Drain(payload);
    assert body == BodyOf(b) && buffer.data == b[h.dataFrameSize..];
    var transInfo := ApplyMutation(header.transInfo, mutation);
    header := header.(transInfo := transInfo);
    Assemble(buffer, fixedHeader, pb.serialize(header), body);
    ok := true;
  }

  /** Sets both sizes and appends the frame. */
  method Assemble(buffer: Buffer, h: FixedHeader, raw: seq<byte>, body: seq<byte>)
    modifies buffer
    ensures buffer.data == old(buffer.data) + Assembled(h, raw, body)
  {
    hide HeaderOctets;
    ghost var b := buffer.data;
    var fixedHeader := h.(pbHeaderSize := |raw| % 0x1_0000);
    fixedHeader := fixedHeader.(dataFrameSize := (fixedHeader.HeaderSize() + |body|) % 0x1_0000_0000);
    assert fixedHeader == Resized(h, |raw|, |body|);
    EncodeFixedHeader(fixedHeader, buffer);
    buffer.Add(raw);
    buffer.Add(body);
    assert buffer.data == b + Assembled(h, raw, body);
  }

  datatype MessageType = Request | Response | Other

  datatype EncodeResult = Encoded | Threw

  /** Only requests and responses are rewritten, and only by a mutation that is not empty. */
  method Encode(buffer: Buffer, pb: Protobuf, messageType: MessageType, mutation: Mutation) returns (r: EncodeResult)
    requires var b := buffer.data;
             messageType != Other && |b| >= PREFIX_SPACE && HasMagic(b) && HeaderAt(b).dataFrameSize <= |b| ==>
               HeaderAt(b).HeaderSize() <= HeaderAt(b).dataFrameSize
    modifies buffer
    ensures var rewrites := mutation != map[] && messageType != Other;
            && (r == Encoded <==> rewrites ==> Mutable(pb, old(buffer.data)))
            && (!rewrites ==> buffer.data == old(buffer.data))
            && (rewrites && r == Encoded ==>
                  var b := old(buffer.data);
                  buffer.data == b[HeaderAt(b).dataFrameSize..] + Mutated(pb, b, mutation))
  {
    r := Encoded;
    if |mutation| < 1 {
      return;
    }
    if messageType == Request || messageType == Response {
      var ok := MutateHeader(buffer, pb, mutation);
      if !ok {
        r := Threw;
      }
    }
  }

  // ----- What a rewrite keeps -----

  /** The header fits its 16-bit size and the whole frame its 32-bit size. */
  predicate Fits(raw: seq<byte>, body: seq<byte>) {
    |raw| <= MAX_PB_HEADER && PREFIX_SPACE + |raw| + |body| < 0x1_0000_0000
  }

  /** Taking apart what was put together: every fixed field but the two sizes is as it was, and
      the sizes are right exactly when they fit. */
  lemma {:induction false} AssembledParts(h: FixedHeader, raw: seq<byte>, body: seq<byte>, rest: seq<byte>)
    ensures var f := Assembled(h, raw, body);
            && |f| == PREFIX_SPACE + |raw| + |body|
            && HasMagic(f + rest)
            && var g := HeaderAt(f + rest);
            && g.(pbHeaderSize := h.pbHeaderSize, dataFrameSize := h.dataFrameSize) == h
            && (g.dataFrameSize == |f| <==> Fits(raw, body))
            && (Fits(raw, body) ==>
                  && g.pbHeaderSize == |raw|
                  && (f + rest)[PREFIX_SPACE..g.HeaderSize()] == raw
                  && (f + rest)[g.HeaderSize()..g.dataFrameSize] == body)
  {
    hide HeaderAt, HasMagic, HeaderOctets;
    var f := Assembled(h, raw, body);
    var g := Resized(h, |raw|, |body|);
    assert f + rest == HeaderOctets(g) + (raw + body + rest);
    HeaderReadsBack(g, raw + body + rest);
    ResizedFits(h, |raw|, |body|);
  }

  lemma ResizedFits(h: FixedHeader, raw: nat, body: nat)
    ensures Resized(h, raw, body).dataFrameSize == PREFIX_SPACE + raw + body
            <==> raw <= MAX_PB_HEADER && PREFIX_SPACE + raw + body < 0x1_0000_0000
    ensures raw <= MAX_PB_HEADER ==> Resized(h, raw, body).pbHeaderSize == raw
  {
    if raw > MAX_PB_HEADER {
      assert raw % 0x1_0000 < raw;
    }
  }

  /** Every key of the mutation has its new value, everything else is as it was. */
  ghost predicate Overrides(after: ProtocolHeader, before: ProtocolHeader, m: Mutation) {
    && after.fields == before.fields
    && (forall k :: k in after.transInfo <==> k in before.transInfo || k in m)
    && (forall k | k in after.transInfo :: after.transInfo[k] == if k in m then m[k] else before.transInfo[k])
  }

  /** The header and the body are all of a frame behind its first sixteen octets. */
  lemma {:induction false} PartsOfFrame(b: seq<byte>)
    requires HoldsFrame(b)
    ensures b[..16] + RawOf(b) + BodyOf(b) == b[..U32At(b, 4)] && |RawOf(b)| == U16At(b, 8)
  {
    hide U16At, U32At;
  }

  /** On one whole frame whose new header fits, the rewrite yields one whole frame with the same
      body and the same header but for the overridden trans_info. */
  lemma {:induction false} MutatedParts(pb: Protobuf, b: seq<byte>, m: Mutation)
    requires Lawful(pb) && Mutable(pb, b)
    requires Fits(pb.serialize(NewHeader(pb, b, m)), BodyOf(b))
    ensures var f := Mutated(pb, b, m);
            && Mutable(pb, f)
            && HeaderAt(f).dataFrameSize == |f|
            && BodyOf(f) == BodyOf(b)
            && pb.parse(RawOf(f)) == Some(NewHeader(pb, b, m))
            && Overrides(pb.parse(RawOf(f)).value, pb.parse(RawOf(b)).value, m)
            && HeaderAt(f).(pbHeaderSize := HeaderAt(b).pbHeaderSize, dataFrameSize := HeaderAt(b).dataFrameSize)
               == HeaderAt(b)
  {
    hide HeaderAt, HasMagic, HeaderOctets;
    var f := Mutated(pb, b, m);
    AssembledParts(HeaderAt(b), pb.serialize(NewHeader(pb, b, m)), BodyOf(b), []);
    assert f + [] == f;
  }

  /** The frame checker takes the rewritten unary message as exactly one frame, whatever follows
      it, if and only if the new header fits its 16-bit size and the frame its 32-bit size. */
  lemma {:induction false} MutatedIsOneFrame(pb: Protobuf, parses: Parser, b: seq<byte>, m: Mutation, rest: seq<byte>)
    requires Lawful(pb) && Mutable(pb, b) && HeaderAt(b).streamFrameType == UNARY
    requires forall raw :: parses(UNARY, raw) <==> pb.parse(raw).Some?
    ensures CutFrame(parses, Mutated(pb, b, m) + rest) == Whole(|Mutated(pb, b, m)|, false)
            <==> Fits(pb.serialize(NewHeader(pb, b, m)), BodyOf(b))
  {
    hide HeaderAt, HasMagic, HeaderOctets;
    var raw := pb.serialize(NewHeader(pb, b, m));
    AssembledParts(HeaderAt(b), raw, BodyOf(b), rest);
  }

  /** Two rewrites in a row are one with the merged mutation. */
  lemma {:induction false} MutateTwice(pb: Protobuf, b: seq<byte>, m: Mutation, n: Mutation)
    requires Lawful(pb) && Mutable(pb, b)
    requires Fits(pb.serialize(NewHeader(pb, b, m)), BodyOf(b))
    ensures Mutable(pb, Mutated(pb, b, m))
    ensures Mutated(pb, Mutated(pb, b, m), n) == Mutated(pb, b, m + n)
  {
    hide HeaderAt, HasMagic, HeaderOctets;
    MutatedParts(pb, b, m);
    var t := pb.parse(RawOf(b)).value.transInfo;
    assert t + m + n == t + (m + n);
  }
}
