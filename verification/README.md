# A verified model of the meta protocol proxy

The meta protocol proxy is an L7 proxy framework: codecs for application protocols cut messages
out of TCP streams, a chain of filters looks at each message, and messages are rewritten on their
way through. This project models the parts of it with the most state and arithmetic in Dafny and
proves what they promise, for all inputs and all runs.

| files | what they model |
|---|---|
| `Wrappers.dfy` | optional values |
| `Bytes.dfy` | octets, big-endian integers, the byte buffer |
| `ThriftProtocol.dfy` | the interface of a Thrift protocol and its laws; the strict binary protocol as an instance |
| `ThriftGrammar.dfy` | Thrift messages as trees and a recursive-descent parser: the reference for the decoder |
| `ThriftMachine.dfy`, `ThriftRuns.dfy`, `ThriftExact.dfy` | the decoder's transition function; refinement, termination, invariants of every run, chunking, exactness of the copy |
| `ThriftWaits.dfy` | what waiting and throwing mean: every wait ends, failures are final, unknown types fail at once |
| `ThriftDecoder.dfy` | the decoder as the object it is, and its error reply |
| `Framing.dfy` | what a codec can say about the front of a stream |
| `DubboProtocol.dfy`, `DubboCodec.dfy` | Dubbo headers, frames and heartbeats; the resumable decoder |
| `TrpcProtocol.dfy`, `TrpcChecker.dfy` | tRPC headers and frames; the resumable decoder with its callbacks |
| `Dispatch.dfy` | splitting a stream into frames, and the connection manager that does it chunk by chunk |
| `DubboRewrite.dfy`, `TrpcRewrite.dfy` | rewriting messages in place |
| `Instances.dfy` | serializers that satisfy the laws, and messages that a rewrite breaks |
| `RateLimiter.dfy`, `LimiterRuns.dfy` | the local rate limiter as a system of interleaved steps with its timer; its refill schedule, and runs that reach its limits |
| `Base64.dfy` | the streaming Base64 encoder and decoder against RFC 4648 |
| `FilterChain.dfy` | one message in the filter chain: pausing, continuing, local replies, destruction |
| `Descriptors.dfy` | counting JVM type descriptors |

`dafny verify dfyconfig.toml` checks the whole project.

## How the code is represented

Objects with mutable fields are classes, their loops are loops, and their methods are proved
against specification functions on sequences; what the code promises is then proved of those
functions, or is the invariant the methods keep. Exceptions are results (`Throw`, `Failed`,
`Reject`, `Invalid`). A `PANIC` or `ASSERT` that must not be reached is a proof obligation.

Calls into code outside the repository are parameters: a Thrift protocol is any pair of functions
that satisfies `ThriftProtocol.Lawful`, the Hessian2 and protobuf libraries are function pairs with
`decode(encode(x)) == x`, the deserializer of a Dubbo body and the parser of a tRPC header are
predicates on octets, a filter is any function of the calls made so far, and header matching in the
limiter is the sequence of its answers. The Dubbo deserializer is given the body alone, although the code
hands it the whole buffer: for requests this is the same, since it throws whenever the fields it reads
do not fit the body; a result is taken not to reach beyond its body.

Concurrency in the rate limiter is a transition system: one load, one compare-and-swap, one
reading of the clock per step, any number of workers, a timer that goes off at or after the moment
it is set for, and compare-and-swap may fail spuriously.
The tokens of a bucket are the only field that threads share, and every property is about one
bucket, so the relaxed ordering of accesses to different buckets does not matter.

The Thrift binary protocol is taken from the Apache Thrift specification, since the proxy uses the
implementation that comes with Envoy. The Base64 tables appear in closed form.

## Findings

Some promises do not hold as one would first state them. The model keeps the code as it is, shows
the case, and proves the exact condition.

- The Thrift decoder copies messages element by element, not octet by octet: a boolean sent as 2
  leaves as 1 (`ThriftExact.CopyCanDiffer`), and the unused third octet leaves as 0.
  `ThriftExact.MachineCopiesOctets` states that the copy is identical exactly when no element is of
  this kind.
- A refill of the rate limiter can take tokens away: `LimiterRuns.FullBucketIsEmptied` is a run, and
  `LimiterRuns.RefillCanLowerIff` says for which configurations there is one.
- The global bucket of the limiter counts its first interval from the epoch of the clock, so it can be
  filled at the first callback. It exceeds its rate in some run exactly when a condition has made the
  timer faster than its interval (`LimiterRuns.GlobalRateByConfiguration`).
- A zero fill interval resets the running minimum, so whether it is rejected depends on the order of
  the conditions (`RefillSchedule.ZeroIntervalDependsOnOrder`). In general the period is the smallest
  interval after the last zero.
- Rewriting a Dubbo message does not check the body limit of the decoder that will read it
  (`DubboInstance.RewriteCanBreakFrame`; the condition is in `DubboRewrite.RequestStaysFramed`). For a
  response without a value the decoder reads attachments but wants none, so it rejects the response
  after every rewrite (`DubboInstance.RewriteCanBreakResponse`; the condition is in
  `DubboRewrite.ResponseStaysFramed`). It treats responses with an exception and attachments alike, but
  those are never rewritten.
- Rewriting a tRPC message cuts the header size to 16 bits (`TrpcInstance.MutateCanBreakFrame`; the
  condition is in `TrpcRewrite.MutatedIsOneFrame`).
- `Attachment::insert` alone does not replace a value; the rewriter is right because it removes first.
- A filter that continues while the message is still in its buffer is called a second time;
  `FilterChain.HistoryInOrder` gives the condition over whole histories.
- Base64 input of pad characters only is handled: the loop bound wraps around, but the first
  character already ends the loop. No precondition is needed.

## Model

| member | source | states |
|---|---|---|
| ThriftBinary.BinaryIsLawful | src/application_protocols/thrift/protocol.h:56-271 | the binary protocol reads atomically: verdicts are stable under more data, elements have the kind asked for, and written elements are read back |
| ThriftGrammar.ParseMessageExact | src/application_protocols/thrift/thrift_codec.cc:233-531 | the reference parser accepts octets as a message exactly when the message is well typed and they carry its elements, in both directions |
| ThriftGrammar.ParseWritten | src/application_protocols/thrift/thrift_codec.cc:233-531 | parsing undoes writing for every well-typed message, whatever follows |
| ThriftMachine.StepDecreases | src/application_protocols/thrift/thrift_codec.cc:454-599 | every transition lowers (octets left, weighted stack depth and state rank), although some consume nothing and some push frames |
| ThriftMachine.MachineRefinesGrammar | src/application_protocols/thrift/thrift_codec.cc:233-599 | for every input the stack machine agrees with the recursive grammar: it finishes exactly on a message, having consumed just that, with an empty stack and the message written back; it waits where the grammar needs more and throws where it rejects |
| ThriftMachine.MachineDecodesEveryMessage | src/application_protocols/thrift/thrift_codec.cc:233-599 | every well-typed message of any nesting, followed by anything, is decoded and transcribed whole |
| ThriftRuns.StepFits | src/application_protocols/thrift/thrift_codec.cc:340-442 | the stack discipline is kept: no pop or top of an empty stack, each container state on its own frame, a map value never with nothing remaining, no panic |
| ThriftRuns.StartIsGood | src/application_protocols/thrift/thrift_codec.h:71-74 | the initial state satisfies the invariant of all runs |
| ThriftRuns.ReachableIsGood | src/application_protocols/thrift/thrift_codec.cc:234-322 | in every reachable state, however arrivals and steps interleave, the elements read account for all octets gone and the output is what was read, less the one stop mark owed at the end of a struct |
| ThriftRuns.StepStable | src/application_protocols/thrift/thrift_codec.cc:340-402 | a transition that does not wait does the same when more octets follow |
| ThriftRuns.RunThenResume | src/application_protocols/thrift/thrift_codec.cc:583-599 | resuming a suspended run with more octets equals one run on all of them |
| ThriftRuns.ChunkingIsIrrelevant | src/application_protocols/thrift/thrift_codec.cc:583-599 | cutting the stream anywhere gives the same state, stack, counters, output and rest |
| ThriftExact.MachineCopiesOctets | src/application_protocols/thrift/thrift_codec.cc:234-531 | the copy equals the octets consumed if and only if every element was in canonical form |
| ThriftExact.CopyCanDiffer | src/application_protocols/thrift/thrift_codec.cc:458-465 | a whole call with a boolean sent as 2 is decoded, and the copy is not what was sent |
| ThriftWaits.EveryWaitEnds | src/application_protocols/thrift/thrift_codec.cc:583-599 | with the binary protocol, whatever has arrived, there are octets after which the decoder has finished or failed: it never waits for ever |
| ThriftWaits.StepWaitEnds | src/application_protocols/thrift/thrift_codec.cc:233-531 | the same for one handler, in every state, reached or not |
| ThriftWaits.FailureIsFinal | src/application_protocols/thrift/thrift_codec.cc:583-599 | what is rejected stays rejected whatever follows, so no exception comes too early |
| ThriftWaits.UnknownTypeFails | src/application_protocols/thrift/thrift_codec.cc:526-527 | a field, element, key or mapped value of a type other than 2, 3, 4, 6, 8, 10 to 15 makes the decoder fail on every buffer, empty ones too |
| ThriftWaits.KnownTypeGoesOn | src/application_protocols/thrift/thrift_codec.cc:457-525 | a value of any of those types is begun or waited for |
| ThriftWaits.TypesByNumber | src/application_protocols/thrift/thrift_codec.cc:457-525 | which number stands for which type, by what is read for a value of it or the state it begins |
| ThriftDecoder.DecoderStateMachine.constructor | src/application_protocols/thrift/thrift_codec.h:71-74 | starts at the beginning of a message with an empty stack |
| ThriftDecoder.DecoderStateMachine.HandleValue | src/application_protocols/thrift/thrift_codec.cc:454-531 | copies a scalar, pushes a return state for a container, and throws on any other type, as the transition does of which UnknownTypeFails and StepWaitEnds speak |
| ThriftDecoder.DecoderStateMachine.HandleState | src/application_protocols/thrift/thrift_codec.cc:233-574 | every state has its handler and the default is unreachable; each of the seventeen handlers does the transition of its state to stack, output and buffer, or leaves all three alone when it waits or throws |
| ThriftDecoder.DecoderStateMachine.Run | src/application_protocols/thrift/thrift_codec.cc:583-599 | the loop terminates on every buffer, never panics, and ends where the machine of the refinement theorem ends |
| ThriftDecoder.OnError | src/application_protocols/thrift/thrift_codec.cc:139-176 | the octets written for a local error are the encoding of one well-typed exception message |
| ThriftDecoder.ErrorReplyIsAccepted | src/application_protocols/thrift/thrift_codec.cc:139-176 | the error reply parses back to itself and is taken whole by the same decoder |
| DubboProtocol.HeaderReadsBack | src/application_protocols/dubbo/dubbo_protocol_impl.cc:87-136 | header decoding inverts writing field by field, and rejects exactly oversized bodies, requests that are not Hessian2 and responses of unknown status |
| DubboProtocol.FlagReadsBack | src/application_protocols/dubbo/dubbo_protocol_impl.cc:57-119 | a flag octet put together from request, two-way and event bits and a serialization type yields those, and the message type they mean |
| DubboProtocol.HeaderIsWritten | src/application_protocols/dubbo/dubbo_protocol_impl.cc:87-136 | every 16 octets with the magic number are the header of their own fields, so none of them is lost |
| DubboProtocol.CutStable | src/application_protocols/dubbo/dubbo_protocol_impl.cc:87-177 | a verdict on the front of the stream does not depend on what follows |
| DubboProtocol.WholeFrameIff | src/application_protocols/dubbo/dubbo_protocol_impl.cc:57-177 | octets are one whole frame exactly if they begin with da bb, are sixteen and as many as octets 12 to 15 say, at most 16 MB, have a valid serialization type or status, and the deserializer takes the body where it is asked; the frame is a heartbeat, request or response, exactly if the event bit is set |
| DubboProtocol.WaitEnds | src/application_protocols/dubbo/dubbo_codec.cc:328-364 | whatever has arrived, there are octets after which there is a frame or a rejection |
| DubboProtocol.EncodeHeartbeat | src/application_protocols/dubbo/dubbo_protocol_impl.cc:222-238 | the buffer is replaced by the reply to the heartbeat |
| DubboProtocol.HeartbeatReplyReadsBack | src/application_protocols/dubbo/dubbo_protocol_impl.cc:222-238 | the reply is 17 octets, the last of them N, and decodes as one whole heartbeat response with the id of the request |
| DubboCodec.DecoderStateMachine.HandleHeader | src/application_protocols/dubbo/dubbo_codec.cc:328-351 | takes out the header, or a whole heartbeat once it is there, and loses no octet |
| DubboCodec.DecoderStateMachine.HandleData | src/application_protocols/dubbo/dubbo_codec.cc:353-364 | waits for the body, throws on a bad one, else completes the frame |
| DubboCodec.DecoderStateMachine.Run | src/application_protocols/dubbo/dubbo_codec.cc:377-391 | outcome and frame are those of the cut of header held plus buffer; header held plus buffer stays the same octets |
| DubboCodec.DubboCodec.Decode | src/application_protocols/dubbo/dubbo_codec.cc:19-53 | hands out exactly the frame at the front, waits or fails, as the cut says, across any number of suspended calls |
| Bytes.ReadsAreBigEndian | src/application_protocols/trpc/protocol.cc:33-71 | integers of two, four and eight octets are the base-256 numbers of those octets, first octet first |
| TrpcProtocol.HeaderReadsBack | src/application_protocols/trpc/protocol.cc:33-82 | header decoding inverts encoding in every field, whatever follows |
| TrpcProtocol.EncodeFixedHeader | src/application_protocols/trpc/protocol.cc:73-82 | appends the 16 octets of the header |
| TrpcProtocol.DecodeFixedHeader | src/application_protocols/trpc/protocol.cc:33-71 | succeeds exactly on 16 octets with the magic number, and drains only then and only if asked |
| TrpcProtocol.CutStable | src/application_protocols/trpc/codec_checker.cc:51-129 | a verdict on the front of the stream does not depend on what follows |
| TrpcProtocol.WholeFrameIff | src/application_protocols/trpc/codec_checker.cc:51-129 | octets are one whole frame exactly if they begin with 09 30, are as many as octets 4 to 7 say, have room for the header size in octets 8 and 9 and a known frame type, and are data or feedback or taken by the parser: a unary frame by its protobuf header, another by all behind the fixed header |
| TrpcProtocol.StrayIff | src/application_protocols/trpc/codec_checker.cc:51-73 | the headers the decoder does not guard against are exactly those with the magic number whose sizes do not nest or whose frame type is unknown |
| TrpcProtocol.WaitEnds | src/application_protocols/trpc/codec_checker.cc:51-129 | whatever has arrived, there are octets after which the wait is over |
| TrpcChecker.KnowsMore | src/application_protocols/trpc/codec_checker.cc:51-129 | what a stage has found out survives the arrival of more octets |
| TrpcChecker.CallbacksInOrder | src/application_protocols/trpc/codec_checker.cc:51-129 | each frame has exactly three callbacks, at three times its position: all six header fields, then the octets of its protobuf header or of its stream frame, then the whole frame |
| TrpcChecker.CodecChecker.DecodeFixedHeader | src/application_protocols/trpc/codec_checker.cc:51-73 | first stage: waits, throws on bad magic, or calls back with the header, without draining |
| TrpcChecker.CodecChecker.DecodeUnaryProtocolHeader | src/application_protocols/trpc/codec_checker.cc:75-93 | second stage of a unary frame: hands over the octets of the protobuf header and no others |
| TrpcChecker.CodecChecker.DecodeStreamFrame | src/application_protocols/trpc/codec_checker.cc:95-114 | second stage of a stream frame: hands over everything behind the fixed header once it is all there |
| TrpcChecker.CodecChecker.DecodePayload | src/application_protocols/trpc/codec_checker.cc:116-129 | last stage: takes out exactly the announced number of octets and calls back with them |
| TrpcChecker.CodecChecker.HandleState | src/application_protocols/trpc/codec_checker.cc:35-49 | every stage has its handler, the default is unreachable, and each stage but the last leads to a later one |
| TrpcChecker.CodecChecker.OnData | src/application_protocols/trpc/codec_checker.cc:17-33 | outcome and frame are those of the cut of the buffer; a wait leaves the buffer alone; all callbacks ever made are three per completed frame in order, then those of the stages passed |
| StreamSplit.CutStable | src/meta_protocol_proxy/decoder.cc:9-32 | for either codec, a verdict on the front of the stream does not depend on what follows |
| StreamSplit.WaitEnds | src/meta_protocol_proxy/decoder.cc:9-32 | for either codec no wait is for ever |
| StreamSplit.SplitConserves | src/meta_protocol_proxy/conn_manager.cc:109-133 | frames and rest together are the stream, nothing lost or reordered; the rest begins with no frame, and is waited on or rejected exactly as the codec says of it |
| StreamSplit.SplitGoesOn | src/meta_protocol_proxy/conn_manager.cc:109-133 | splitting a longer stream goes on where the shorter one stopped and stays rejected where it was rejected |
| StreamSplit.SplitYieldsFrames | src/meta_protocol_proxy/decoder.cc:49-82 | every frame delivered is a frame by itself |
| StreamSplit.SplitOfFrames | src/meta_protocol_proxy/decoder.cc:49-82 | a concatenation of frames splits into exactly those frames |
| StreamSplit.DubboIsNeverLost | src/application_protocols/dubbo/dubbo_protocol_impl.cc:87-136 | no Dubbo stream reaches a header the decoder does not guard against |
| ConnectionManager.EachOnce | src/meta_protocol_proxy/decoder.cc:17-32 | there are as many messages as frames that are no heartbeats and as many replies as heartbeats: every frame counts once |
| ConnectionManager.InOrder | src/meta_protocol_proxy/decoder.cc:17-32 | the message of a frame is at the number of messages before it, and the reply to a heartbeat at the number of heartbeats before it |
| ConnectionManager.ReplyAnswers | src/meta_protocol_proxy/conn_manager.cc:94-107 | the reply to a heartbeat frame decodes to a heartbeat response, status 20, with the id in octets 4 to 11 of that frame |
| ConnectionManager.RequestReader.Receive | src/meta_protocol_proxy/conn_manager.cc:28-31 | appends to what is pending without disturbing a suspended codec |
| ConnectionManager.RequestReader.Decode | src/meta_protocol_proxy/decoder.cc:9-32 | either codec, called through the interface, cuts what is pending as the specification does |
| ConnectionManager.ConnectionManager.constructor | src/meta_protocol_proxy/conn_manager.cc:20-26 | a new connection satisfies the invariant |
| ConnectionManager.ConnectionManager.OnMessage | src/meta_protocol_proxy/conn_manager.cc:85-92 | a message is delivered once and gets one new handler, which stays on the ordered list exactly if it is not done at once |
| ConnectionManager.ConnectionManager.DeferredDeleteMessage | src/meta_protocol_proxy/conn_manager.cc:194-202 | removes that handler and no other; does nothing if it is gone |
| ConnectionManager.ConnectionManager.OnHeartbeat | src/meta_protocol_proxy/conn_manager.cc:94-107 | a heartbeat gets one reply with its id and no handler |
| ConnectionManager.ConnectionManager.DecoderOnData | src/meta_protocol_proxy/decoder.cc:49-82 | one frame is completed and consumed, or nothing changes; underflow is reported exactly when there is nothing left or more is needed |
| ConnectionManager.ConnectionManager.Dispatch | src/meta_protocol_proxy/conn_manager.cc:109-133 | terminates; delivers exactly the frames of the split of what is pending; after an exception the connection is closed and no handler left |
| ConnectionManager.ConnectionManager.Abort | src/meta_protocol_proxy/conn_manager.cc:127-133 | the connection is closed and every handler reset once |
| ConnectionManager.ConnectionManager.ResetAllMessages | src/meta_protocol_proxy/conn_manager.cc:204-216 | every handler on the list is reset once, newest first |
| ConnectionManager.ConnectionManager.OnData | src/meta_protocol_proxy/conn_manager.cc:28-43 | keeps the invariant of the connection: after any history of chunks, messages delivered, heartbeats answered and octets pending are a function of all octets received |
| ConnectionManager.ConnectionManager.EachHandled | src/meta_protocol_proxy/decoder.cc:17-32 | deliveries and replies together are as many as frames, and each frame has been delivered or answered in its turn |
| ConnectionManager.ConnectionManager.HeartbeatsAreNotDelivered | src/meta_protocol_proxy/decoder.cc:17-26 | over the whole life of a Dubbo connection no octets with the event bit set are handed to a handler |
| ConnectionManager.ConnectionManager.FramesArrive | src/meta_protocol_proxy/conn_manager.cc:28-133 | for every list of frames and every chunking, once they have arrived they are exactly the frames completed, nothing is left over, and each has been delivered or answered once and in its turn |
| ConnectionManager.ConnectionManager.ChunkingIsIrrelevant | src/meta_protocol_proxy/conn_manager.cc:28-133 | for every stream, bad ones too, and every chunking, the frames of the split of the whole are those completed, each delivered or answered once and in its turn |
| ConnectionManager.ConnectionManager.Conservation | src/meta_protocol_proxy/conn_manager.cc:109-133 | octets in frames, held by the codec and in the buffer are the octets received |
| ConnectionManager.ConnectionManager.CallbacksPerFrame | src/application_protocols/trpc/codec_checker.cc:17-129 | over the whole life of a tRPC connection each frame has had its three callbacks once and in order |
| DubboRewrite.Attachment.Insert | src/application_protocols/dubbo/message_impl.cc:28-36 | adds a key that is not there, leaves one that is |
| DubboRewrite.Attachment.Remove | src/application_protocols/dubbo/message_impl.cc:38-44 | takes the key away and marks the attachments |
| DubboRewrite.OverrideFind | src/application_protocols/dubbo/message_impl.cc:46-55 | after a mutation its keys are found with their new values and all others as before |
| DubboRewrite.Attachment.Apply | src/application_protocols/dubbo/dubbo_codec.cc:308-315 | removing and inserting entry by entry, in any order, overrides the map by the mutation |
| DubboRewrite.Splice | src/application_protocols/dubbo/dubbo_protocol_impl.cc:266-292 | moving between buffers yields header, new length, kept body part and new attachments |
| DubboRewrite.HeaderMutation | src/application_protocols/dubbo/dubbo_protocol_impl.cc:260-295 | rewrites exactly when attachments exist and were touched |
| DubboRewrite.EncodeRequest | src/application_protocols/dubbo/dubbo_codec.cc:303-326 | the buffer becomes the rewritten message; an empty mutation changes nothing |
| DubboRewrite.EncodeResponse | src/application_protocols/dubbo/dubbo_codec.cc:81-128 | the same for a response, only when there is a mutation |
| DubboRewrite.SpliceKeeps | src/application_protocols/dubbo/dubbo_protocol_impl.cc:260-295 | first 12 octets and the body up to the attachments are unchanged; the length field is the length of the body in 32 bits |
| DubboRewrite.SpliceDecodes | src/application_protocols/dubbo/dubbo_protocol_impl.cc:87-136 | the rewritten header decodes to the same type, id and status with the length written if and only if that is within the limit |
| DubboRewrite.RewriteOverrides | src/application_protocols/dubbo/dubbo_protocol_impl.cc:260-295 | reading the rewritten message finds the attachments at the same offset, overridden by the mutation |
| DubboRewrite.RewriteTwice | src/application_protocols/dubbo/dubbo_protocol_impl.cc:260-295 | two rewrites in a row are one with the merged mutation, octet for octet |
| DubboRewrite.RewriteIsMessage | src/application_protocols/dubbo/dubbo_protocol_impl.cc:87-136 | a rewritten message is again one message of the same type, id and status if and only if its body is within the limit |
| DubboRewrite.RequestStaysFramed | src/application_protocols/dubbo/dubbo_hessian2_serializer_impl.cc:20-44 | a request the decoder takes stays one frame under a rewrite if and only if the new body is within the limit |
| DubboRewrite.ResponseStaysFramed | src/application_protocols/dubbo/dubbo_hessian2_serializer_impl.cc:90-175 | a response with attachments that the decoder takes stays one frame under a rewrite if and only if, besides, something may follow its type |
| DubboInstance.RewriteCanBreakFrame | src/application_protocols/dubbo/dubbo_protocol_impl.cc:286-289 | a call of a method without parameters that the decoder takes, and a mutation after which it does not |
| DubboInstance.RewriteCanBreakResponse | src/application_protocols/dubbo/dubbo_hessian2_serializer_impl.cc:118-172 | a null response the decoder takes, but not after any rewrite |
| TrpcRewrite.ApplyMutation | src/application_protocols/trpc/protocol.h:206-210 | assigning entry by entry, in any order, overrides trans_info by the mutation |
| TrpcRewrite.Assemble | src/application_protocols/trpc/protocol.h:212-219 | appends the frame with both sizes recomputed |
| TrpcRewrite.MutateHeader | src/application_protocols/trpc/protocol.h:176-222 | succeeds exactly on a whole frame whose header parses, and leaves the rewritten frame behind whatever followed; on failure the headers looked at are gone |
| TrpcRewrite.Encode | src/application_protocols/trpc/trpc_codec.cc:35-54 | rewrites requests and responses only, leaves the buffer alone for an empty mutation, throws when the rewrite fails |
| TrpcRewrite.AssembledParts | src/application_protocols/trpc/protocol.h:212-219 | all fixed fields but the sizes are kept, and the size is right if and only if the header fits 16 bits and the frame 32 |
| TrpcRewrite.PartsOfFrame | src/application_protocols/trpc/protocol.h:176-204 | the protobuf header and the body that a rewrite works with are all of the frame behind its first sixteen octets |
| TrpcRewrite.MutatedParts | src/application_protocols/trpc/protocol.h:176-222 | the result is one whole frame with the same body and fixed fields; in its protobuf header every key of the mutation has its new value, all other keys and all other fields are as they were |
| TrpcRewrite.MutatedIsOneFrame | src/application_protocols/trpc/codec_checker.cc:51-129 | the frame checker takes the result as exactly one frame if and only if the header fits 16 bits and the frame 32 |
| TrpcInstance.MutateCanBreakFrame | src/application_protocols/trpc/protocol.h:212-219 | a message and a mutation after which the frame checker does not take it whole |
| TrpcRewrite.MutateTwice | src/application_protocols/trpc/protocol.h:176-222 | two rewrites in a row are one with the merged mutation |
| RateLimiter.Choose | src/meta_protocol_proxy/filters/local_ratelimit/local_ratelimit_impl.cc:137-155 | the first matching condition decides, then the global bucket, and a request goes unmetered only if there is none |
| RateLimiter.Refilled | src/meta_protocol_proxy/filters/local_ratelimit/local_ratelimit_impl.cc:84 | a refill never exceeds the maximum nor adds more than one fill, and is one of the two when nothing wraps |
| RateLimiter.RefillLowersIffItWraps | src/meta_protocol_proxy/filters/local_ratelimit/local_ratelimit_impl.cc:84 | a refill takes tokens away exactly when the 32-bit sum wraps around |
| LimiterRuns.RefillCanLowerIff | src/meta_protocol_proxy/filters/local_ratelimit/local_ratelimit_impl.cc:76-92 | some run from construction has a refill that takes tokens away if and only if max plus fill does not fit in 32 bits |
| LimiterRuns.FullBucketIsEmptied | src/meta_protocol_proxy/filters/local_ratelimit/local_ratelimit_impl.cc:76-92 | a full bucket of 2^32 - 1 tokens with fills of one token is emptied by its first fill |
| RateLimiter.InitialInv | src/meta_protocol_proxy/filters/local_ratelimit/local_ratelimit_impl.cc:22-64 | a new limiter satisfies the invariant |
| RateLimiter.NextKeeps | src/meta_protocol_proxy/filters/local_ratelimit/local_ratelimit_impl.cc:71-135 | every load, swap, failed swap, clock reading and stamp keeps the invariant; with it, that the timer is never set for less than a period after its last callback began nor for more than a period from now |
| RateLimiter.Execute | src/meta_protocol_proxy/filters/local_ratelimit/local_ratelimit_impl.cc:76-155 | every interleaving of any number of workers, the timer and time keeps the invariant |
| RateLimiter.TokensAreConserved | src/meta_protocol_proxy/filters/local_ratelimit/local_ratelimit_impl.cc:76-135 | for every interleaving tokens stay within [0, max] and equal max plus refilled minus admitted; without wrap-around no refill is negative |
| RateLimiter.AdmissionsAreBounded | src/meta_protocol_proxy/filters/local_ratelimit/local_ratelimit_impl.cc:94-155 | for every interleaving admissions are at most max plus one fill per full interval, plus one for a global bucket with an interval longer than the timer period |
| LimiterRuns.GlobalRateIff | src/meta_protocol_proxy/filters/local_ratelimit/local_ratelimit_impl.cc:22-44 | the global bucket keeps to max plus one fill per full interval in every run if and only if the timer period is not below its interval (or it never hands out or gets a token, or was made at the epoch of the clock); otherwise a run of requests and one timely callback exceeds it |
| LimiterRuns.GlobalRateByConfiguration | src/meta_protocol_proxy/filters/local_ratelimit/local_ratelimit_impl.cc:22-44 | with the period the constructor chooses, a global bucket that hands out and gets tokens keeps its rate in every run if and only if no condition has a shorter interval |
| RefillSchedule.GlobalSetsPeriodIff | src/meta_protocol_proxy/filters/local_ratelimit/local_ratelimit_impl.cc:30-38 | with positive intervals, the period is not below the global interval exactly when no condition has a shorter one |
| RateLimiter.FailureMeansProgress | src/meta_protocol_proxy/filters/local_ratelimit/local_ratelimit_impl.cc:116-135 | a swap that fails, not spuriously, does so because another thread succeeded |
| RateLimiter.RefusalMeansEmpty | src/meta_protocol_proxy/filters/local_ratelimit/local_ratelimit_impl.cc:116-124 | in every run a request is refused only if its bucket is empty, or was when it was last looked at and another thread has changed it since |
| LimiterRuns.RequestIsDecided | src/meta_protocol_proxy/filters/local_ratelimit/local_ratelimit_impl.cc:116-135 | from any state of any run a worker can finish: having seen a token it takes exactly one if there still is one, else it is refused and nothing changes |
| RefillSchedule.ChoosePeriod | src/meta_protocol_proxy/filters/local_ratelimit/local_ratelimit_impl.cc:30-44 | the constructor's loop computes the smallest interval after the last zero, and fails exactly below 50 ms |
| RefillSchedule.PeriodOfPositiveIntervals | src/meta_protocol_proxy/filters/local_ratelimit/local_ratelimit_impl.cc:30-44 | with positive intervals the period is their minimum |
| RefillSchedule.ZeroIntervalDependsOnOrder | src/meta_protocol_proxy/filters/local_ratelimit/local_ratelimit_impl.cc:35-37 | the same intervals in another order are accepted or rejected |
| LimiterRuns.PassMany | src/meta_protocol_proxy/filters/local_ratelimit/local_ratelimit_impl.cc:94-114 | an undisturbed callback refills and stamps exactly the buckets that are due and leaves the others alone |
| LimiterRuns.NeverOverdue | src/meta_protocol_proxy/filters/local_ratelimit/local_ratelimit_impl.cc:94-114 | in every run, whatever requests do meanwhile, no bucket had waited a whole interval when the last completed callback began |
| LimiterRuns.FiringsApart | src/meta_protocol_proxy/filters/local_ratelimit/local_ratelimit_impl.cc:44-74 | callbacks begin at least a period after one another |
| LimiterRuns.TimerIsSetAgain | src/meta_protocol_proxy/filters/local_ratelimit/local_ratelimit_impl.cc:71-74 | no step but the end of a callback sets the timer, and that sets it for exactly one period later |
| LimiterRuns.CallbackEnds | src/meta_protocol_proxy/filters/local_ratelimit/local_ratelimit_impl.cc:71-114 | wherever a callback is, in any run, it can go on to its end at once, and the timer is then set for exactly one period later |
| LimiterRuns.OneTurn | src/meta_protocol_proxy/filters/local_ratelimit/local_ratelimit_impl.cc:71-114 | from any resting state there is a run of one turn: the callback begins at the moment set, refreshes exactly the buckets that are due, and the timer is set for one period later |
| LimiterRuns.PunctualRun | src/meta_protocol_proxy/filters/local_ratelimit/local_ratelimit_impl.cc:44-74 | for every n there is a run from construction with n callbacks, none begun more than a period after the one before and the last exactly n periods after the timer was first set |
| LimiterRuns.RefillGaps | src/meta_protocol_proxy/filters/local_ratelimit/local_ratelimit_impl.cc:71-114 | in every run, with any number of requests in between, two refills of a bucket are at least its interval apart, and less than its interval plus g if callbacks begin at most g apart |
| LimiterRuns.RefillGapsOnTime | src/meta_protocol_proxy/filters/local_ratelimit/local_ratelimit_impl.cc:71-114 | in every run whose callbacks begin a period apart, of which PunctualRun gives one for every length, two refills of a bucket are at least its interval and less than its interval plus one period apart |
| Base64.EncodeBase | src/meta_protocol_proxy/filters/common/base64.h:103-120 | appends the indices one octet completes and carries its leftover bits |
| Base64.EncodeLast | src/meta_protocol_proxy/filters/common/base64.h:122-141 | flushes the carry and pads |
| Base64.Encode | src/meta_protocol_proxy/filters/common/base64.h:143-158 | the streaming encoder computes the 24-bit-group encoding of section 4 of RFC 4648 |
| Base64.PaddedLength | src/meta_protocol_proxy/filters/common/base64.h:144 | padded output has (n + 2) / 3 * 4 characters |
| Base64.StandardAlphabet | src/meta_protocol_proxy/filters/common/base64.h:35-36 | the characters are those of table 1 of RFC 4648, and the pad is = |
| Base64.DecodeBase | src/meta_protocol_proxy/filters/common/base64.h:52-77 | one character adds its six bits at the end of the output, or is rejected |
| Base64.DecodeLast | src/meta_protocol_proxy/filters/common/base64.h:79-101 | the last character is rejected if it starts a group or has bits to spare |
| Base64.StrippedPads | src/meta_protocol_proxy/filters/common/base64.h:165-172 | at most two pads are taken off the end, all of them if there are no more than two, and nothing else |
| Base64.Decode | src/meta_protocol_proxy/filters/common/base64.h:160-198 | the result is the one string whose unpadded encoding is the input less up to two pads, and empty exactly when there is none; the size assertion holds |
| Base64.EncodedInjective | src/meta_protocol_proxy/filters/common/base64.h:143-158 | different strings have different encodings |
| Base64.StrippedEncoding | src/meta_protocol_proxy/filters/common/base64.h:165-172 | stripping up to two pads undoes padding |
| Base64.RoundTrip | src/meta_protocol_proxy/filters/common/base64.h:143-198 | decoding an encoding gives the string back, for every string and either padding |
| FilterChain.IterateCalls | src/meta_protocol_proxy/active_message.cc:489-512 | an iteration calls consecutive filters once each, stops short of the end of the chain only if its last call stopped it, and only its last call can stop it |
| FilterChain.IterateReports | src/meta_protocol_proxy/active_message.cc:489-512 | an iteration is answered exactly if its last filter sent a reply, and paused or aborted exactly if its last filter returned that status without a reply |
| FilterChain.IterateLength | src/meta_protocol_proxy/active_message.cc:489-512 | the message is still there, untouched, unless some call of the iteration took it out of its buffer |
| FilterChain.HistoryInOrder | src/meta_protocol_proxy/active_message.cc:146-165 | for every chain and history of pauses the filters called are an in-order, gap-free, duplicate-free prefix if and only if no filter was continued undrained |
| FilterChain.ActiveMessage.ApplyDecoderFilters | src/meta_protocol_proxy/active_message.cc:489-512 | the loop makes the calls of the specification, none after a local reply, and returns the status of the last filter called |
| FilterChain.ActiveMessage.SendLocalReply | src/meta_protocol_proxy/active_message.cc:535-545 | only a reply that keeps the connection answers the message |
| FilterChain.ActiveMessage.OnMessageDecoded | src/meta_protocol_proxy/active_message.cc:303-408 | requests and stream openings start a history, with the calls and status it prescribes; the message is pending exactly when the last filter called returned PauseIteration without a reply; it stays on the list exactly if it is pending, or is an unanswered request that was not aborted, or a response or error |
| FilterChain.ActiveMessage.ContinueDecoding | src/meta_protocol_proxy/active_message.cc:146-165 | extends the history by one resumption, drained or answered as it was: calls, reply and message left are those of the history, after undrained continues too, and the status is that of the last filter called |
| FilterChain.ActiveMessage.InOrderIff | src/meta_protocol_proxy/active_message.cc:146-165 | the calls of the object are an in-order, gap-free, duplicate-free prefix of the chain if and only if no filter was continued undrained |
| FilterChain.SilenceAfterReply | src/meta_protocol_proxy/active_message.cc:489-512 | after a local reply no history calls any filter, whatever is tried later |
| FilterChain.ActiveMessage.DeferredDelete | src/meta_protocol_proxy/conn_manager.cc:194-202 | the message is off the list; asking again changes nothing |
| FilterChain.ActiveMessage.MaybeDeferredDelete | src/meta_protocol_proxy/active_message.cc:439-468 | answered and one-way messages leave the list |
| FilterChain.ActiveMessage.AddFilter | src/meta_protocol_proxy/active_message.cc:630-633 | a dual filter is at the end of both lists and registered once |
| FilterChain.ActiveMessage.AddDecoderFilter | src/meta_protocol_proxy/active_message.cc:622-624 | registers a filter at the end of the decoder chain |
| FilterChain.ActiveMessage.AddEncoderFilter | src/meta_protocol_proxy/active_message.cc:626-628 | registers a filter at the end of the encoder list only |
| FilterChain.ActiveMessage.Destroy | src/meta_protocol_proxy/active_message.cc:252-268 | every filter is destroyed as often as it was registered |
| FilterChain.DestroyedOnce | src/meta_protocol_proxy/active_message.cc:252-268 | filters registered once each, dual ones too, are destroyed exactly once |
| Descriptors.GetParametersNumber | src/application_protocols/dubbo/hessian_utils.cc:12-57 | for every list of well-formed descriptors the count is its length in 32 bits; for any other string it is what the scanner counts |
| Descriptors.TextsInjective | src/application_protocols/dubbo/hessian_utils.cc:12-57 | a parameter string is the text of at most one list of descriptors, so the count is well defined |

## Left out

- Thrift transports and `ThriftCodec::decode`: the frame around a message comes from Envoy's transports, which are not part of this model; the header that frames the error reply is left out for the same reason.
- Thrift pass-through mode: off by default, and its output omits the message header.
- The other Thrift protocols (compact, header): any protocol that satisfies `ThriftProtocol.Lawful` is covered, but only the binary one is shown to.
- The brpc codec: it overwrites the status of its decoder, so that a resumed decode is not a run of the machine.
- `Protocol<T>::decode` of tRPC: it reads the header from an offset it has already drained.
- TrpcChecker.CodecChecker.OnData: requires that a header announces at least its own size and a known frame type; the code does not guard against others, and its subtraction wraps around or it panics.
- TrpcChecker.CodecChecker.HandleState: requires the same.
- TrpcChecker.CodecChecker.DecodeFixedHeader: requires the same.
- TrpcRewrite.MutateHeader: requires the same of the sizes.
- TrpcRewrite.Encode: requires the same of the sizes.
- ConnectionManager.RequestReader.Decode: requires the same of a tRPC header; for Dubbo there is no such requirement.
- ConnectionManager.ConnectionManager.DecoderOnData: requires the same of a tRPC header.
- ConnectionManager.ConnectionManager.Dispatch: requires that a tRPC stream never reaches such a header; for Dubbo this always holds.
- ConnectionManager.ConnectionManager.OnData: requires that a tRPC stream never reaches such a header; for Dubbo this always holds.
- The generic `DecoderStateMachine` object that `DecoderBase` keeps: it only remembers that a decode is in progress, which the codec remembers as well.
- Heartbeats from upstream: on the response path a heartbeat reports underflow even with octets left.
- DubboCodec.DubboCodec.Decode: hands out a response whose result has no attachments (result types 0 and 1) like any other; the code reads the missing attachments when it fills in the metadata of such a response.
- ConnectionManager.ConnectionManager.FramesArrive: for the same reason does not cover such responses when they arrive from downstream.
- DubboRewrite.EncodeResponse: requires that a result has attachments when there is a mutation; the code dereferences them unconditionally.
- The header-map view of Dubbo attachments, which ignores case: only the map that is serialized is modelled, and its serialization is taken to depend on its contents alone.
- Dubbo messages of type Oneway and Exception in `encode`, the body of the Hessian2 result switch, and Dubbo error replies: they panic, are foreign calls, or write nothing.
- The encoder filter chain: it is iterated by the same code as the decoder chain; only its part in destruction is modelled. The status `Retry` belongs to it.
- FilterChain.ActiveMessage.ContinueDecoding: the filter that continues is taken to be the one that paused, outside its own callback.
- Upstream handlers, streams, the connection pool, routing, configuration, tracing, statistics and access logs: plumbing driven by Envoy callbacks.
- Header matching and weighted clusters: their algorithms are in Envoy.
