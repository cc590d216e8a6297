/** From TCP chunks to messages: what it means to split a byte stream into frames, and that the
    pipeline of connection manager, decoder and codec does it for every chunking. */
module StreamSplit {
  import opened Bytes
  import opened Framing
  import DubboProtocol
  import TrpcProtocol

  datatype Format = Dubbo(accepts: DubboProtocol.Deserializer) | Trpc(parses: TrpcProtocol.Parser)

  function CutFrame(f: Format, s: seq<byte>): (r: Cut)
    ensures r.Whole? ==> 16 <= r.size <= |s|
  {
    match f
    case Dubbo(accepts) => DubboProtocol.CutFrame(accepts, s)
    case Trpc(parses) => TrpcProtocol.CutFrame(parses, s)
  }

  lemma CutStable(f: Format, s: seq<byte>, t: seq<byte>)
    requires CutFrame(f, s) != More
    ensures CutFrame(f, s + t) == CutFrame(f, s)
  {
    match f {
      case Dubbo(accepts) => DubboProtocol.CutStable(accepts, s, t);
      case Trpc(parses) => TrpcProtocol.CutStable(parses, s, t);
    }
  }

  /** No wait is for ever. */
  lemma WaitEnds(f: Format, s: seq<byte>) returns (c: seq<byte>)
    ensures CutFrame(f, s + c) != More
  {
    match f {
      case Dubbo(accepts) => c := DubboProtocol.WaitEnds(accepts, s);
      case Trpc(parses) => c := TrpcProtocol.WaitEnds(parses, s);
    }
  }

  lemma NothingToCut(f: Format)
    ensures CutFrame(f, []) == More
  {
  }

  datatype Frame = Frame(octets: seq<byte>, heartbeat: bool)

  /** How the split of a stream ends: in need of more octets, at octets the codec rejects, or at a
      header it is not written for. */
  datatype End = Waiting | Rejected | Lost

  datatype Run = Run(frames: seq<Frame>, rest: seq<byte>, end: End) {
    function Prepend(fs: seq<Frame>): (r: Run) { Run(fs + frames, rest, end) }
  }

  /** The stream cut into frames from the front. */
  function Split(f: Format, s: seq<byte>): (r: Run)
    decreases |s|
  {
    match CutFrame(f, s)
    case More => Run([], s, Waiting)
    case Reject => Run([], s, Rejected)
    case Stray => Run([], s, Lost)
    case Whole(n, heartbeat) => Split(f, s[n..]).Prepend([Frame(s[..n], heartbeat)])
  }

  lemma SplitStep(f: Format, s: seq<byte>)
    ensures CutFrame(f, s) == More <==> Split(f, s) == Run([], s, Waiting)
    ensures CutFrame(f, s) == Reject ==> Split(f, s) == Run([], s, Rejected)
    ensures CutFrame(f, s) == Stray ==> Split(f, s).end == Lost
    ensures CutFrame(f, s).Whole? ==>
              && var c := CutFrame(f, s);
              Split(f, s) == Split(f, s[c.size..]).Prepend([Frame(s[..c.size], c.heartbeat)])
  {
  }

  lemma NothingToSplit(f: Format)
    ensures Split(f, []) == Run([], [], Waiting)
  {
    NothingToCut(f);
  }

  function Octets(fs: seq<Frame>): (s: seq<byte>) {
    if fs == [] then [] else fs[0].octets + Octets(fs[1..])
  }

  lemma PrependTwice(r: Run, a: seq<Frame>, b: seq<Frame>)
    ensures r.Prepend(b).Prepend(a) == r.Prepend(a + b)
  {
    assert a + (b + r.frames) == a + b + r.frames;
  }

  /** Nothing is lost, changed or reordered: the frames and the rest are the stream, and the rest
      begins with no frame. */
  lemma {:induction false} SplitConserves(f: Format, s: seq<byte>)
    ensures var r := Split(f, s); Octets(r.frames) + r.rest == s
    ensures var r := Split(f, s); r.end == Waiting <==> CutFrame(f, r.rest) == More
    ensures var r := Split(f, s); r.end == Rejected <==> CutFrame(f, r.rest) == Reject
    ensures !CutFrame(f, Split(f, s).rest).Whole?
    decreases |s|
  {
    hide CutFrame;
    var c := CutFrame(f, s);
    if c.Whole? {
      var t := Split(f, s[c.size..]);
      SplitConserves(f, s[c.size..]);
      var frame := Frame(s[..c.size], c.heartbeat);
      assert ([frame] + t.frames)[1..] == t.frames;
      assert frame.octets + Octets(t.frames) + t.rest == frame.octets + (Octets(t.frames) + t.rest);
    }
  }

  /** Splitting a longer stream goes on where the shorter one stopped, and stays stopped where
      that was rejected. */
  lemma {:induction false} SplitGoesOn(f: Format, s: seq<byte>, t: seq<byte>)
    ensures var r := Split(f, s);
            r.end == Waiting ==> Split(f, s + t) == Split(f, r.rest + t).Prepend(r.frames)
    ensures var r := Split(f, s);
            r.end != Waiting ==> Split(f, s + t) == Run(r.frames, r.rest + t, r.end)
    decreases |s|
  {
    hide CutFrame;
    var c := CutFrame(f, s);
    if c.Whole? {
      CutStable(f, s, t);
      assert (s + t)[c.size..] == s[c.size..] + t && (s + t)[..c.size] == s[..c.size];
      SplitGoesOn(f, s[c.size..], t);
      var r := Split(f, s[c.size..]);
      PrependTwice(Split(f, r.rest + t), [Frame(s[..c.size], c.heartbeat)], r.frames);
    } else if c != More {
      CutStable(f, s, t);
    } else {
      assert [] + Split(f, s + t).frames == Split(f, s + t).frames;
    }
  }

  /** The Dubbo decoder guards against every header. */
  lemma {:induction false} DubboIsNeverLost(f: Format, s: seq<byte>)
    requires f.Dubbo?
    ensures Split(f, s).end != Lost
    decreases |s|
  {
    var c := CutFrame(f, s);
    if c.Whole? {
      DubboIsNeverLost(f, s[c.size..]);
    }
  }

  predicate IsFrame(f: Format, frame: Frame) {
    CutFrame(f, frame.octets) == Whole(|frame.octets|, frame.heartbeat)
  }

  /** Every frame that a split yields is a frame by itself, and a concatenation of frames splits
      into exactly those frames. */
  lemma {:induction false} SplitYieldsFrames(f: Format, s: seq<byte>)
    ensures forall i | 0 <= i < |Split(f, s).frames| :: IsFrame(f, Split(f, s).frames[i])
    decreases |s|
  {
    hide CutFrame;
    var c := CutFrame(f, s);
    if c.Whole? {
      SplitYieldsFrames(f, s[c.size..]);
      FrameAlone(f, s);
    }
  }

  lemma {:induction false} SplitOfFrames(f: Format, fs: seq<Frame>, rest: seq<byte>)
    requires forall i | 0 <= i < |fs| :: IsFrame(f, fs[i])
    ensures Split(f, Octets(fs) + rest) == Split(f, rest).Prepend(fs)
    decreases |fs|
  {
    hide CutFrame, Split, IsFrame;
    if fs == [] {
      assert Octets(fs) + rest == rest;
      assert [] + Split(f, rest).frames == Split(f, rest).frames;
    } else {
      var tail := Octets(fs[1..]) + rest;
      assert Octets(fs) + rest == fs[0].octets + tail;
      SplitFirst(f, fs[0], tail);
      SplitOfFrames(f, fs[1..], rest);
      PrependTwice(Split(f, rest), [fs[0]], fs[1..]);
      assert [fs[0]] + fs[1..] == fs;
    }
  }

  lemma {:induction false} SplitFirst(f: Format, frame: Frame, tail: seq<byte>)
    requires IsFrame(f, frame)
    ensures Split(f, frame.octets + tail) == Split(f, tail).Prepend([frame])
  {
    hide CutFrame;
    var o := frame.octets;
    CutStable(f, o, tail);
    assert (o + tail)[|o|..] == tail && (o + tail)[..|o|] == o;
  }

  lemma {:induction false} FrameAlone(f: Format, s: seq<byte>)
    requires CutFrame(f, s).Whole?
    ensures var c := CutFrame(f, s); CutFrame(f, s[..c.size]) == c
  {
    match f {
      case Dubbo(accepts) =>
        hide DubboProtocol.DecodeHeader, DubboProtocol.AcceptsBody;
        DubboProtocol.ShortNeedsMore(s);
        DubboProtocol.HeaderStable(s, []);
        var n := CutFrame(f, s).size;
        assert s[..n][..16] == s[..16];
        DubboProtocol.HeaderStable(s[..n], []);
        assert s[..n][16..n] == s[16..n];
      case Trpc(parses) =>
        hide TrpcProtocol.HeaderAt, TrpcProtocol.HasMagic, TrpcProtocol.AcceptsHeader;
        var n := CutFrame(f, s).size;
        assert s == s[..n] + s[n..];
        TrpcProtocol.HeaderStable(s[..n], s[n..]);
        var e := TrpcProtocol.RawEnd(TrpcProtocol.HeaderAt(s));
        assert s[..n][16..e] == s[16..e];
    }
  }

  /** Having cut `done` off the stream `p`, the splitter is left with `q`. */
  ghost predicate Splitting(f: Format, p: seq<byte>, done: seq<Frame>, q: seq<byte>) {
    Split(f, p) == Split(f, q).Prepend(done)
  }

  lemma {:induction false} SplittingStarts(f: Format, p: seq<byte>)
    ensures Splitting(f, p, [], p)
  {
    hide Split;
    assert [] + Split(f, p).frames == Split(f, p).frames;
  }

  lemma {:induction false} SplittingGoesOn(f: Format, p: seq<byte>, done: seq<Frame>, q: seq<byte>)
    requires Splitting(f, p, done, q)
    ensures CutFrame(f, q) == More ==> Split(f, p) == Run(done, q, Waiting)
    ensures CutFrame(f, q) == Reject ==> Split(f, p) == Run(done, q, Rejected)
    ensures CutFrame(f, q) == Stray ==> Split(f, p).end == Lost
    ensures CutFrame(f, q).Whole? ==>
              && var c := CutFrame(f, q);
              Splitting(f, p, done + [Frame(q[..c.size], c.heartbeat)], q[c.size..])
  {
    hide CutFrame, Split;
    SplitStep(f, q);
    var c := CutFrame(f, q);
    if c.Whole? {
      PrependTwice(Split(f, q[c.size..]), done, [Frame(q[..c.size], c.heartbeat)]);
    }
  }
}

/** The connection manager: buffers what arrives, drives the decoder until it runs dry, hands
    every message to a handler of its own and answers heartbeats. */
module ConnectionManager {
  import opened Bytes
  import opened Framing
  import opened StreamSplit
  import DubboProtocol
  import TrpcProtocol
  import Dubbo = DubboCodec
  import Trpc = TrpcChecker

  datatype Codec = DubboCodec(dubbo: Dubbo.DubboCodec) | TrpcCodec(checker: Trpc.CodecChecker)

  /** The request buffer and the codec that reads from it. */
  class RequestReader {
    const format: Format
    const codec: Codec
    const requestBuffer: Buffer
    ghost var pending: seq<byte>         // what is in no frame yet: held by the codec, then buffered
    ghost var completed: seq<seq<byte>>  // the frames cut off so far
    ghost var repr: set<object>

    constructor ForDubbo(accepts: DubboProtocol.Deserializer)
      ensures format == Format.Dubbo(accepts) && Valid() && pending == [] && completed == [] && fresh(repr)
    {
      format := Format.Dubbo(accepts);
      var buffer := new Buffer([]);
      var c := new Dubbo.DubboCodec(accepts);
      requestBuffer, codec, pending, completed := buffer, DubboCodec(c), [], [];
      repr := {this, buffer, c};
    }

    constructor ForTrpc(parses: TrpcProtocol.Parser)
      ensures format == Format.Trpc(parses) && Valid() && pending == [] && completed == [] && fresh(repr)
    {
      format := Format.Trpc(parses);
      var buffer := new Buffer([]);
      var c := new Trpc.CodecChecker(parses);
      requestBuffer, codec, pending, completed := buffer, TrpcCodec(c), [], [];
      repr := {this, buffer, c};
    }

    ghost predicate Valid()
      reads this, repr
    {
      && this in repr
      && requestBuffer in repr
      && match codec
         case DubboCodec(c) =>
           && c in repr
           && (c.machine != null ==> c.machine in repr)
           && format == Format.Dubbo(c.accepts)
           && c.Valid()
           && pending == c.Held() + requestBuffer.data
         case TrpcCodec(c) =>
           && c in repr
           && format == Format.Trpc(c.parses)
           && c.Watching(requestBuffer.data)
           && c.frames == completed
           && pending == requestBuffer.data
    }

    method Receive(data: seq<byte>)
      requires Valid()
      modifies repr
      ensures Valid() && repr == old(repr) && pending == old(pending) + data && completed == old(completed)
      ensures requestBuffer.data == old(requestBuffer.data) + data
    {
      match codec {
        case DubboCodec(c) =>
          assert c.Held() + (requestBuffer.data + data) == c.Held() + requestBuffer.data + data;
        case TrpcCodec(c) =>
          Trpc.KnowsMore(c.parses, c.stage, requestBuffer.data, data);
      }
      requestBuffer.Add(data);
      pending := pending + data;
    }

    /** One call of the codec. */
    method Decode() returns (status: DecodeStatus, message: seq<byte>, heartbeat: bool, empty: bool)
      requires Valid() && CutFrame(format, pending) != Stray
      modifies repr
      ensures fresh(repr - old(repr))
      ensures Agrees(status, CutFrame(format, old(pending)))
      ensures status != Failed ==> Valid()
      ensures status == NeedData ==> pending == old(pending) && completed == old(completed)
      ensures status == Ready ==>
                && CutFrame(format, old(pending)) == Whole(|message|, heartbeat)
                && message + pending == old(pending)
                && completed == old(completed) + [message]
                && empty == (pending == [])
    {
      match codec {
        case DubboCodec(c) =>
          status, message, heartbeat := c.Decode(requestBuffer);
          repr := repr + if c.machine == null then {} else {c.machine};
        case TrpcCodec(c) =>
          heartbeat := false;
          status, message := c.OnData(requestBuffer);
      }
      if status == Ready {
        pending, completed := requestBuffer.data, completed + [message];
      }
      empty := |requestBuffer.data| == 0;
    }
  }

  function Messages(fs: seq<Frame>): (ms: seq<seq<byte>>) {
    if fs == [] then []
    else Messages(fs[..|fs| - 1]) + if fs[|fs| - 1].heartbeat then [] else [fs[|fs| - 1].octets]
  }

  function Contents(fs: seq<Frame>): (bs: seq<seq<byte>>) {
    if fs == [] then [] else Contents(fs[..|fs| - 1]) + [fs[|fs| - 1].octets]
  }

  lemma ContentsOneMore(fs: seq<Frame>, frame: Frame)
    ensures Contents(fs + [frame]) == Contents(fs) + [frame.octets]
  {
    assert (fs + [frame])[..|fs|] == fs;
  }

  /** The reply to a heartbeat frame: one with its request id. */
  function ReplyTo(octets: seq<byte>): (b: seq<byte>) {
    match DubboProtocol.DecodeHeader(octets)
    case Decoded(h) => DubboProtocol.HeartbeatReply(h.requestId)
    case _ => []
  }

  function Replies(fs: seq<Frame>): (bs: seq<seq<byte>>) {
    if fs == [] then []
    else Replies(fs[..|fs| - 1]) + if fs[|fs| - 1].heartbeat then [ReplyTo(fs[|fs| - 1].octets)] else []
  }

  /** How many of the frames are heartbeats, or are not. */
  function Count(fs: seq<Frame>, heartbeat: bool): (n: nat) {
    if fs == [] then 0
    else Count(fs[..|fs| - 1], heartbeat) + if fs[|fs| - 1].heartbeat == heartbeat then 1 else 0
  }

  /** Every frame is a message or a heartbeat, and is there once. */
  lemma {:induction false} EachOnce(fs: seq<Frame>)
    ensures |Messages(fs)| == Count(fs, false) && |Replies(fs)| == Count(fs, true)
    ensures |Messages(fs)| + |Replies(fs)| == |fs|
  {
    if fs != [] {
      EachOnce(fs[..|fs| - 1]);
    }
  }

  /** The frames are in order: each message comes behind the messages, each reply behind the replies
      to the heartbeats, of the frames before it. */
  lemma {:induction false} InOrder(fs: seq<Frame>, i: nat)
    requires i < |fs|
    ensures var k := Count(fs[..i], fs[i].heartbeat);
            if fs[i].heartbeat then k < |Replies(fs)| && Replies(fs)[k] == ReplyTo(fs[i].octets)
            else k < |Messages(fs)| && Messages(fs)[k] == fs[i].octets
  {
    hide ReplyTo;
    var n := |fs| - 1;
    EachOnce(fs[..n]);
    if i < n {
      InOrder(fs[..n], i);
      assert fs[..n][..i] == fs[..i];
    }
  }

  /** The reply to a heartbeat frame decodes to a heartbeat response with the id of that frame. */
  lemma ReplyAnswers(accepts: DubboProtocol.Deserializer, octets: seq<byte>)
    requires DubboProtocol.CutFrame(accepts, octets) == Whole(|octets|, true)
    ensures |octets| >= 16
    ensures var id := Signed64(U64At(octets, 4));
      DubboProtocol.DecodeHeader(ReplyTo(octets))
      == DubboProtocol.Decoded(DubboProtocol.Header(DubboProtocol.HeartbeatResponse, id, 1, 20))
  {
    var id := Signed64(U64At(octets, 4));
    assert ReplyTo(octets) == DubboProtocol.HeartbeatReply(id);
    DubboProtocol.HeartbeatReplyReadsBack(accepts, id, []);
    assert ReplyTo(octets) + [] == ReplyTo(octets);
  }

  /** Every message is one of the frames, and no heartbeat. */
  lemma {:induction false} MessagesAreFrames(fs: seq<Frame>, d: seq<byte>)
    requires d in Messages(fs)
    ensures exists i :: 0 <= i < |fs| && !fs[i].heartbeat && fs[i].octets == d
  {
    var n := |fs| - 1;
    if !fs[n].heartbeat && fs[n].octets == d {
    } else {
      MessagesAreFrames(fs[..n], d);
      var i :| 0 <= i < n && !fs[..n][i].heartbeat && fs[..n][i].octets == d;
      assert fs[i].octets == d;
    }
  }

  lemma NoEventBit(f: Format, d: seq<byte>)
    requires f.Dubbo? && CutFrame(f, d) == Whole(|d|, false)
    ensures |d| >= 16 && d[2] / 0x20 % 2 == 0
  {
    DubboProtocol.WholeFrameIff(f.accepts, d, false);
  }

  /** Newest first, each of them a message that was delivered. */
  predicate IsActiveList(ids: seq<nat>, delivered: nat) {
    && (forall i | 0 <= i < |ids| :: ids[i] < delivered)
    && (forall i, j | 0 <= i < j < |ids| :: ids[j] < ids[i])
  }

  class ConnectionManager {
    const reader: RequestReader
    const finishes: seq<byte> -> bool  // whether a handler is done with its message at once

    var open: bool                     // the downstream connection
    var delivered: seq<seq<byte>>      // the messages handed to handlers, in order
    var written: seq<seq<byte>>        // the heartbeat replies written downstream, in order
    var activeMessages: seq<nat>       // the handlers still at work, as indices into `delivered`
    var resets: seq<nat>               // the handlers reset, in order
    ghost var received: seq<byte>      // everything that ever arrived
    ghost var frames: seq<Frame>       // every frame completed

    constructor (reader: RequestReader, finishes: seq<byte> -> bool)
      requires reader.Valid() && reader.pending == [] && reader.completed == []
      ensures this.reader == reader && Valid() && open && received == []
    {
      this.reader := reader;
      this.finishes := finishes;
      open, delivered, written, activeMessages, resets, received, frames := true, [], [], [], [], [], [];
      new;
      NothingToCut(reader.format);
    }

    /** The handlers and replies are those of the frames completed. */
    ghost predicate Tracked()
      reads this`delivered, this`written, this`activeMessages, this`frames
    {
      && delivered == Messages(frames)
      && written == Replies(frames)
      && IsActiveList(activeMessages, |delivered|)
    }

    /** At every moment, whatever the chunks were, the frames completed are those of the split of
        everything received; while the connection is open the octets not yet in a frame are all
        here, and once it is closed no handler is left. */
    ghost predicate Valid()
      reads this, reader, reader.repr
    {
      && this !in reader.repr
      && Tracked()
      && (open ==>
            && reader.Valid()
            && reader.completed == Contents(frames)
            && Split(reader.format, received) == Run(frames, reader.pending, Waiting))
      && (!open ==> Split(reader.format, received).frames == frames && activeMessages == [])
    }

    /** A new handler goes to the front of the list and gets the message. */
    method OnMessage(message: seq<byte>)
      requires Tracked()
      modifies this`delivered, this`activeMessages, this`frames
      ensures frames == old(frames) + [Frame(message, false)]
      ensures Tracked()
      ensures forall x :: x in activeMessages
                          <==> x in old(activeMessages) || (x == |old(delivered)| && !finishes(message))
    {
      var id := |delivered|;
      activeMessages := [id] + activeMessages;
      delivered := delivered + [message];
      frames := frames + [Frame(message, false)];
      assert frames[..|frames| - 1] == old(frames);
      if finishes(message) {
        DeferredDeleteMessage(id);
      }
    }

    /** Takes a handler off the list; one that is not on it is left alone. */
    method DeferredDeleteMessage(id: nat)
      requires IsActiveList(activeMessages, |delivered|)
      modifies this`activeMessages
      ensures IsActiveList(activeMessages, |delivered|)
      ensures forall x :: x in activeMessages <==> x in old(activeMessages) && x != id
    {
      for i := 0 to |activeMessages|
        invariant forall j | 0 <= j < i :: activeMessages[j] != id
        invariant activeMessages == old(activeMessages)
      {
        if activeMessages[i] == id {
          activeMessages := activeMessages[..i] + activeMessages[i + 1..];
          forall x | x in old(activeMessages) && x != id
            ensures x in activeMessages
          {
            var k :| 0 <= k < |old(activeMessages)| && old(activeMessages)[k] == x;
            assert if k < i then activeMessages[k] == x else activeMessages[k - 1] == x;
          }
          return;
        }
      }
    }

    method OnHeartbeat(message: seq<byte>)
      requires Tracked()
      modifies this`written, this`frames
      ensures frames == old(frames) + [Frame(message, true)]
      ensures Tracked()
    {
      var response := new Buffer([]);
      var header := DubboProtocol.DecodeHeader(message);
      if header.Decoded? {
        DubboProtocol.EncodeHeartbeat(header.header.requestId, response);
      }
      written := written + [response.data];
      frames := frames + [Frame(message, true)];
      assert frames[..|frames| - 1] == old(frames);
    }

    /** Runs the decoder once: it completes one frame, waits or fails. */
    method DecoderOnData() returns (underflow: bool, failed: bool)
      requires this !in reader.repr && Tracked() && reader.Valid()
      requires CutFrame(reader.format, reader.pending) != Stray
      requires reader.completed == Contents(frames)
      modifies this`delivered, this`written, this`activeMessages, this`frames, reader, reader.repr
      ensures this !in reader.repr && fresh(reader.repr - old(reader.repr))
      ensures Tracked()
      ensures var c := CutFrame(reader.format, old(reader.pending));
              && failed == (c == Reject)
              && (c == Reject || c == More ==> frames == old(frames))
              && (c == More ==> underflow && reader.pending == old(reader.pending))
              && (c.Whole? ==>
                    && frames == old(frames) + [Frame(old(reader.pending)[..c.size], c.heartbeat)]
                    && reader.pending == old(reader.pending)[c.size..]
                    && underflow == (reader.pending == []))
      ensures !failed ==> reader.Valid() && reader.completed == Contents(frames)
    {
      hide CutFrame, Tracked, Contents, RequestReader.Valid;
      var status, message, heartbeat, empty := reader.Decode();
      if status == Failed {
        return false, true;
      }
      if status == NeedData {
        return true, false;
      }
      ContentsOneMore(frames, Frame(message, heartbeat));
      if heartbeat {
        OnHeartbeat(message);
      } else {
        OnMessage(message);
      }
      underflow, failed := empty, false;
    }

    /** Runs the decoder until the buffer is dry. It stops on every stream. */
    method Dispatch()
      requires open && this !in reader.repr && Tracked() && reader.Valid()
      requires |reader.requestBuffer.data| == 0 ==> CutFrame(reader.format, reader.pending) == More
      requires Split(reader.format, reader.pending).end != Lost
      requires reader.completed == Contents(frames)
      modifies this, reader, reader.repr
      ensures this !in reader.repr && fresh(reader.repr - old(reader.repr))
      ensures Tracked() && received == old(received)
      ensures var r := Split(reader.format, old(reader.pending));
              && frames == old(frames) + r.frames
              && open == (r.end == Waiting)
              && (open ==> reader.Valid() && reader.pending == r.rest && reader.completed == Contents(frames))
              && (!open ==> activeMessages == [])
    {
      hide CutFrame, Split, Splitting, Tracked, RequestReader.Valid, Contents;
      ghost var f, p := reader.format, reader.pending;
      if |reader.requestBuffer.data| == 0 {
        SplitStep(f, p);
        return;
      }
      ghost var done: seq<Frame> := [];
      SplittingStarts(f, p);
      var underflow := false;
      while !underflow
        invariant open && this !in reader.repr && Tracked() && reader.Valid() && received == old(received)
        invariant fresh(reader.repr - old(reader.repr))
        invariant frames == old(frames) + done && reader.completed == Contents(frames)
        invariant Splitting(f, p, done, reader.pending)
        invariant underflow ==> CutFrame(f, reader.pending) == More
        decreases !underflow, |reader.pending|
      {
        SplittingGoesOn(f, p, done, reader.pending);
        ghost var q := reader.pending;
        var failed;
        underflow, failed := DecoderOnData();
        if failed {
          Abort();
          return;
        }
        ghost var c := CutFrame(f, q);
        if c.Whole? {
          done := done + [Frame(q[..c.size], c.heartbeat)];
          NothingToCut(f);
        }
      }
      SplittingGoesOn(f, p, done, reader.pending);
    }

    /** The connection is closed and every handler reset. */
    method Abort()
      requires Tracked()
      modifies this`open, this`activeMessages, this`resets
      ensures Tracked() && !open && activeMessages == [] && resets == old(resets) + old(activeMessages)
    {
      open := false;
      ResetAllMessages();
    }

    /** Resets every handler on the list, newest first, each once. */
    method ResetAllMessages()
      modifies this`activeMessages, this`resets
      ensures activeMessages == [] && resets == old(resets) + old(activeMessages)
    {
      while activeMessages != []
        invariant resets + activeMessages == old(resets) + old(activeMessages)
        decreases |activeMessages|
      {
        resets := resets + [activeMessages[0]];
        activeMessages := activeMessages[1..];
      }
    }

    /** A chunk arrives. */
    method OnData(data: seq<byte>, endStream: bool)
      requires open && Valid()
      requires Split(reader.format, received + data).end != Lost
      modifies this, reader, reader.repr
      ensures Valid() && fresh(reader.repr - old(reader.repr))
      ensures received == old(received) + data
      ensures open == (!endStream && Split(reader.format, received).end == Waiting)
    {
      hide Split, CutFrame, Tracked, RequestReader.Valid, Contents;
      SplitConserves(reader.format, received);
      SplitGoesOn(reader.format, received, data);
      assert reader.pending + [] == reader.pending;
      reader.Receive(data);
      received := received + data;
      Dispatch();
      if endStream {
        Abort();
      }
    }

    /** Frame `i` has been delivered, or answered, in its turn. */
    ghost predicate Handled(fs: seq<Frame>, i: nat)
      requires i < |fs|
      reads this`delivered, this`written
    {
      var k := Count(fs[..i], fs[i].heartbeat);
      if fs[i].heartbeat then k < |written| && written[k] == ReplyTo(fs[i].octets)
      else k < |delivered| && delivered[k] == fs[i].octets
    }

    /** Every frame completed has been delivered or answered, once and in its turn. */
    lemma {:induction false} EachHandled()
      requires Tracked()
      ensures |delivered| + |written| == |frames|
      ensures forall i | 0 <= i < |frames| :: Handled(frames, i)
    {
      hide Messages, Replies, Count;
      EachOnce(frames);
      forall i | 0 <= i < |frames|
        ensures Handled(frames, i)
      {
        InOrder(frames, i);
      }
    }

    /** On a Dubbo connection nothing with the event bit set is ever delivered: heartbeats, requests
        and responses alike, are answered instead. */
    lemma {:induction false} HeartbeatsAreNotDelivered(d: seq<byte>)
      requires Valid() && reader.format.Dubbo? && d in delivered
      ensures |d| >= 16 && d[2] / 0x20 % 2 == 0
    {
      hide Split, Messages, CutFrame;
      SplitYieldsFrames(reader.format, received);
      MessagesAreFrames(frames, d);
      var i :| 0 <= i < |frames| && !frames[i].heartbeat && frames[i].octets == d;
      assert IsFrame(reader.format, frames[i]);
      NoEventBit(reader.format, d);
    }

    /** Whatever the chunks were, once whole frames have arrived they are exactly the frames
        completed: every message has been delivered, every heartbeat answered, once each and in
        order, and nothing is left over. */
    lemma {:induction false} FramesArrive(fs: seq<Frame>)
      requires Valid() && open
      requires received == Octets(fs) && forall i | 0 <= i < |fs| :: IsFrame(reader.format, fs[i])
      ensures frames == fs && delivered == Messages(fs) && written == Replies(fs) && reader.pending == []
      ensures |delivered| + |written| == |fs|
      ensures forall i | 0 <= i < |fs| :: Handled(fs, i)
    {
      hide Split, IsFrame, Messages, Replies, Handled;
      SplitOfFrames(reader.format, fs, []);
      NothingToSplit(reader.format);
      assert Octets(fs) + [] == Octets(fs) && fs + [] == fs;
      EachHandled();
    }

    /** For every stream, bad ones too, and however it was cut into chunks: a connection that has
        received all of it, or as much as it took to be rejected, has completed, delivered and
        answered exactly the frames of the split of the whole. */
    lemma {:induction false} ChunkingIsIrrelevant(stream: seq<byte>)
      requires Valid() && received <= stream
      requires received == stream || Split(reader.format, received).end == Rejected
      ensures var fs := Split(reader.format, stream).frames;
              && frames == fs && delivered == Messages(fs) && written == Replies(fs)
              && |delivered| + |written| == |fs|
              && forall i | 0 <= i < |fs| :: Handled(fs, i)
    {
      hide Split, Messages, Replies, Handled;
      EachHandled();
      SplitGoesOn(reader.format, received, stream[|received|..]);
      assert received + stream[|received|..] == stream;
    }

    /** Octets in frames, octets the codec holds and the buffer make up what was received. */
    lemma {:induction false} Conservation()
      requires Valid() && open
      ensures Octets(frames) + reader.pending == received
    {
      SplitConserves(reader.format, received);
    }

    /** On a tRPC connection every frame has had its callbacks once each and in order, and the
        frame in progress those of the stages it has passed. */
    lemma {:induction false} CallbacksPerFrame()
      requires Valid() && open && reader.codec.TrpcCodec?
      ensures var c := reader.codec.checker;
              && (forall f | f in Contents(frames) :: Trpc.IsFrame(f))
              && Trpc.Knows(c.parses, c.stage, reader.pending)
              && c.calls == Trpc.AllCallbacks(Contents(frames)) + Trpc.Made(c.parses, c.stage, reader.pending)
    {
      hide Trpc.AllCallbacks, Trpc.Made, Trpc.Knows, Trpc.IsFrame, Contents, Split;
    }
  }
}
