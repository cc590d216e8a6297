/** One message on its way through the filter chain: filters are called in order, may pause the
    iteration and continue it later, may answer the message themselves, and are destroyed with it. */
module FilterChain {

  datatype FilterStatus = ContinueIteration | PauseIteration | AbortIteration

  /** What a filter does when it is called. */
  datatype Reaction = Reaction(status: FilterStatus, sendsLocalReply: bool, drains: bool)

  /** The filters, all together: how the last one called reacts, given all the calls so far. */
  type Filters = seq<nat> -> Reaction

  datatype Entry = Entry(filter: nat, dual: bool)

  datatype MessageType =
    | Request | Response | Oneway | Error | StreamInit | StreamData | StreamCloseOneWay | StreamCloseTwoWay

  /** No response to wait for; those of a stream are not handled here. */
  predicate IsOneWay(t: MessageType) {
    t in {Oneway, StreamInit, StreamData, StreamCloseOneWay, StreamCloseTwoWay}
  }

  /** Only requests and the first message of a stream go through the filters. */
  predicate NeedsFilters(t: MessageType) {
    t == Request || t == StreamInit
  }

  lemma OneWayTypes(t: MessageType)
    ensures IsOneWay(t) <==> t !in {Request, Response, Error}
  {
    match t
    case Request | Response | Oneway | Error =>
    case _ =>
  }

  datatype StartState = AlwaysStartFromNext | CanStartFromCurrent

  // ----- The specification of one iteration -----

  datatype Outcome = Outcome(calls: seq<nat>, status: FilterStatus, localReply: bool, length: nat)

  /** The calls from position `i` on, until the chain ends, a filter stops it or answers. */
  function Iterate(filters: Filters, n: nat, i: nat, calls: seq<nat>, length: nat): (o: Outcome)
    decreases n - i
  {
    if i >= n then Outcome(calls, ContinueIteration, false, length)
    else
      var calls' := calls + [i];
      var r := filters(calls');
      var length' := if r.drains then 0 else length;
      if r.sendsLocalReply then Outcome(calls', ContinueIteration, true, length')
      else if r.status != ContinueIteration then Outcome(calls', r.status, false, length')
      else Iterate(filters, n, i + 1, calls', length')
  }

  function Range(i: nat, j: nat): (s: seq<nat>)
    requires i <= j
    ensures |s| == j - i && forall k | 0 <= k < |s| :: s[k] == i + k
  {
    seq(j - i, k requires 0 <= k < j - i => i + k)
  }

  /** The calls form a prefix of the chain: in order, without gaps and without repetitions. */
  predicate InOrder(calls: seq<nat>, n: nat) {
    |calls| <= n && calls == Range(0, |calls|)
  }

  /** An iteration calls the positions from `i` on, each once and in order. It runs to the end of
      the chain unless its last call stopped it, and only its last call may have done so. */
  lemma {:induction false} IterateCalls(filters: Filters, n: nat, i: nat, calls: seq<nat>, length: nat)
    requires i <= n
    ensures var o := Iterate(filters, n, i, calls, length);
            && |calls| <= |o.calls| <= |calls| + n - i
            && (i < n ==> |calls| < |o.calls|)
            && o.calls == calls + Range(i, i + |o.calls| - |calls|)
            && (|o.calls| < |calls| + n - i ==> Stopped(filters, o.calls))
            && (forall k | |calls| < k < |o.calls| :: !Stopped(filters, o.calls[..k]))
    decreases n - i
  {
    if i < n {
      var calls' := calls + [i];
      var length' := if filters(calls').drains then 0 else length;
      var o := Iterate(filters, n, i, calls, length);
      if Stopped(filters, calls') {
        assert o.calls == calls + Range(i, i + 1);
      } else {
        IterateCalls(filters, n, i + 1, calls', length');
        var j := i + |o.calls| - |calls|;
        assert calls' + Range(i + 1, j) == calls + Range(i, j);
        assert o.calls[..|calls'|] == calls';
      }
    } else {
      assert calls + Range(i, i) == calls;
    }
  }

  /** An iteration reports what its last call returned: it is answered exactly if that filter sent a
      reply, and paused or aborted exactly if that filter, without a reply, returned this. */
  lemma {:induction false} IterateReports(filters: Filters, n: nat, i: nat, calls: seq<nat>, length: nat)
    ensures var o := Iterate(filters, n, i, calls, length);
            && (o.calls == calls || |o.calls| > |calls|)
            && (o.localReply <==> |o.calls| > |calls| && filters(o.calls).sendsLocalReply)
            && Reports(filters, calls, o.calls, o.status)
    decreases n - i
  {
    if i < n {
      var calls' := calls + [i];
      var length' := if filters(calls').drains then 0 else length;
      if !Stopped(filters, calls') {
        IterateReports(filters, n, i + 1, calls', length');
      }
    }
  }

  /** `status` says how the last call since `before` stopped the iteration without an answer, if it did. */
  predicate Reports(filters: Filters, before: seq<nat>, calls: seq<nat>, status: FilterStatus) {
    var r := filters(calls);
    var unanswered := |calls| > |before| && !r.sendsLocalReply;
    && (status == PauseIteration <==> unanswered && r.status == PauseIteration)
    && (status == AbortIteration <==> unanswered && r.status == AbortIteration)
  }

  /** The last of these calls ends the iteration: with an answer, a pause or an abort. */
  predicate Stopped(filters: Filters, calls: seq<nat>) {
    filters(calls).sendsLocalReply || filters(calls).status != ContinueIteration
  }

  /** Call number `k` of the iteration takes the message out of its buffer. */
  predicate DrainedAt(filters: Filters, calls: seq<nat>, k: nat)
    requires k <= |calls|
  {
    filters(calls[..k]).drains
  }

  /** The message is left as it was, unless some call of the iteration took it out of its buffer. */
  lemma {:induction false} IterateLength(filters: Filters, n: nat, i: nat, calls: seq<nat>, length: nat)
    requires i <= n
    ensures var o := Iterate(filters, n, i, calls, length);
            o.length == if exists k :: |calls| < k <= |o.calls| && DrainedAt(filters, o.calls, k) then 0 else length
    decreases n - i
  {
    IterateCalls(filters, n, i, calls, length);
    if i < n {
      var calls' := calls + [i];
      var length' := if filters(calls').drains then 0 else length;
      var o := Iterate(filters, n, i, calls, length);
      assert o.calls[..|calls'|] == calls';
      assert DrainedAt(filters, o.calls, |calls'|) == filters(calls').drains;
      if !Stopped(filters, calls') {
        IterateLength(filters, n, i + 1, calls', length');
      }
    }
  }

  // ----- Whole histories -----

  /** What happened while the iteration was paused, before it was continued. */
  datatype Resumption = Resumption(drained: bool, replied: bool)

  /** The iteration continued by the filter that paused it. */
  function Continued(filters: Filters, n: nat, o: Outcome, r: Resumption): (o': Outcome)
    requires o.calls != []
  {
    var length := if r.drained then 0 else o.length;
    var current := o.calls[|o.calls| - 1];
    if r.replied then Outcome(o.calls, ContinueIteration, true, length)
    else Iterate(filters, n, if length != 0 then current else current + 1, o.calls, length)
  }

  predicate IsPaused(o: Outcome) {
    o.status == PauseIteration && o.calls != []
  }

  /** A message through the chain, continued as often as it is paused. */
  function History(filters: Filters, n: nat, length: nat, rs: seq<Resumption>): (o: Outcome)
    decreases |rs|
  {
    if rs == [] then Iterate(filters, n, 0, [], length)
    else
      var o := History(filters, n, length, rs[..|rs| - 1]);
      if IsPaused(o) then Continued(filters, n, o, rs[|rs| - 1]) else o
  }

  /** No filter was continued while its message was still there to be read. */
  predicate AlwaysDrained(filters: Filters, n: nat, length: nat, rs: seq<Resumption>)
    decreases |rs|
  {
    rs == [] ||
    (&& AlwaysDrained(filters, n, length, rs[..|rs| - 1])
     && var o := History(filters, n, length, rs[..|rs| - 1]);
     && var r := rs[|rs| - 1];
     (IsPaused(o) ==> r.drained || r.replied || o.length == 0))
  }

  lemma PrefixInOrder(calls: seq<nat>, more: seq<nat>, n: nat)
    requires InOrder(calls + more, n)
    ensures InOrder(calls, n) && (more != [] ==> more[0] == |calls|)
  {
    assert calls == (calls + more)[..|calls|];
    assert more != [] ==> (calls + more)[|calls|] == more[0];
  }

  /** Going on behind the filter that paused keeps the calls a prefix of the chain, going on from it
      does not. */
  lemma {:induction false} ContinuedInOrder(filters: Filters, n: nat, o: Outcome, r: Resumption)
    requires o.calls != [] && (forall c | c in o.calls :: c < n) && !r.replied
    ensures var o' := Continued(filters, n, o, r);
            && (InOrder(o'.calls, n) <==> InOrder(o.calls, n) && (r.drained || o.length == 0))
            && (forall c | c in o'.calls :: c < n)
  {
    hide Iterate, InOrder, Stopped;
    var length := if r.drained then 0 else o.length;
    var current := o.calls[|o.calls| - 1];
    assert current in o.calls;
    var entry := if length != 0 then current else current + 1;
    IterateCalls(filters, n, entry, o.calls, length);
    var o' := Iterate(filters, n, entry, o.calls, length);
    var more := Range(entry, entry + |o'.calls| - |o.calls|);
    if InOrder(o'.calls, n) {
      PrefixInOrder(o.calls, more, n);
    }
    if InOrder(o.calls, n) {
      LastInOrder(o.calls, n);
      if length == 0 {
        IterateInOrder(filters, n, o.calls, length);
      }
    }
  }

  /** For every chain and every history, the filters called are a prefix of the chain, in order
      and without gaps or repetitions, if and only if no filter was continued undrained. */
  lemma {:induction false} HistoryInOrder(filters: Filters, n: nat, length: nat, rs: seq<Resumption>)
    ensures var o := History(filters, n, length, rs);
            && (InOrder(o.calls, n) <==> AlwaysDrained(filters, n, length, rs))
            && (forall c | c in o.calls :: c < n)
    decreases |rs|
  {
    hide Iterate, InOrder, Stopped;
    if rs == [] {
      IterateCalls(filters, n, 0, [], length);
      assert InOrder([], n) by { EmptyInOrder(n); }
      IterateInOrder(filters, n, [], length);
    } else {
      var k := |rs| - 1;
      HistoryInOrder(filters, n, length, rs[..k]);
      var o := History(filters, n, length, rs[..k]);
      if IsPaused(o) && !rs[k].replied {
        assert o.calls[|o.calls| - 1] in o.calls;
        ContinuedInOrder(filters, n, o, rs[k]);
      }
    }
  }

  lemma HistoryStarts(filters: Filters, n: nat, length: nat)
    ensures History(filters, n, length, []) == Iterate(filters, n, 0, [], length)
  {
  }

  lemma {:induction false} HistoryOneMore(filters: Filters, n: nat, length: nat, rs: seq<Resumption>, r: Resumption)
    ensures var o := History(filters, n, length, rs);
            History(filters, n, length, rs + [r]) == if IsPaused(o) then Continued(filters, n, o, r) else o
  {
    hide Iterate, Continued;
    assert (rs + [r])[..|rs|] == rs;
  }

  /** A message that was answered is not paused or aborted. */
  lemma {:induction false} StoppedIsNotAnswered(filters: Filters, n: nat, length: nat, rs: seq<Resumption>)
    ensures var o := History(filters, n, length, rs); o.localReply ==> o.status == ContinueIteration
    decreases |rs|
  {
    hide Iterate;
    if rs == [] {
      IterateReports(filters, n, 0, [], length);
    } else {
      var k := |rs| - 1;
      StoppedIsNotAnswered(filters, n, length, rs[..k]);
      var o := History(filters, n, length, rs[..k]);
      if IsPaused(o) {
        var length', current := if rs[k].drained then 0 else o.length, o.calls[|o.calls| - 1];
        IterateReports(filters, n, if length' != 0 then current else current + 1, o.calls, length');
      }
    }
  }

  /** Nothing is called after a local reply, whatever is tried later. */
  lemma {:induction false} SilenceAfterReply(filters: Filters, n: nat, length: nat,
                                             rs: seq<Resumption>, more: seq<Resumption>)
    requires History(filters, n, length, rs).localReply
    ensures History(filters, n, length, rs + more) == History(filters, n, length, rs)
    decreases |more|
  {
    hide History;
    if more == [] {
      assert rs + more == rs;
    } else {
      var k := |more| - 1;
      SilenceAfterReply(filters, n, length, rs, more[..k]);
      StoppedIsNotAnswered(filters, n, length, rs);
      HistoryOneMore(filters, n, length, rs + more[..k], more[k]);
      assert rs + more[..k] + [more[k]] == rs + more;
    }
  }

  lemma EmptyInOrder(n: nat)
    ensures InOrder([], n)
  {
  }

  lemma LastInOrder(calls: seq<nat>, n: nat)
    requires InOrder(calls, n) && calls != []
    ensures calls[|calls| - 1] == |calls| - 1
  {
  }

  // ----- Registered filters -----

  function FilterIds(es: seq<Entry>): (ids: seq<nat>) {
    if es == [] then [] else FilterIds(es[..|es| - 1]) + [es[|es| - 1].filter]
  }

  /** The encoder filters that are not in the decoder chain as well. */
  function SingleIds(es: seq<Entry>): (ids: seq<nat>) {
    if es == [] then []
    else SingleIds(es[..|es| - 1]) + if es[|es| - 1].dual then [] else [es[|es| - 1].filter]
  }

  class ActiveMessage {
    const filters: Filters
    var decoderFilters: seq<Entry>
    var encoderFilters: seq<Entry>
    var messageType: MessageType
    var messageLength: nat          // octets of the message not taken out of it yet
    var filterAction: bool          // set while the decoder iteration can go on
    var pendingStreamDecoded: bool
    var localResponseSent: bool
    var inserted: bool              // still on the list of active messages
    var calls: seq<nat>             // positions of the decoder filters called, in order
    var destroyed: seq<nat>         // filters destroyed, in order
    ghost var registered: seq<nat>  // filters registered, in order
    ghost var callsAtReply: nat     // how many calls there were when the local reply was sent
    // The history of the message so far, and what has happened since it was last paused.
    ghost var started: bool
    ghost var startLength: nat
    ghost var resumptions: seq<Resumption>
    ghost var drained: bool
    ghost var replied: bool

    constructor (filters: Filters)
      ensures this.filters == filters && Valid() && !started && destroyed == [] && inserted && !localResponseSent
      ensures decoderFilters == [] && encoderFilters == [] && registered == []
    {
      this.filters := filters;
      decoderFilters, encoderFilters, registered, destroyed := [], [], [], [];
      messageType, messageLength := Request, 0;
      filterAction, pendingStreamDecoded, localResponseSent, inserted := false, false, false, true;
      calls, callsAtReply := [], 0;
      started, startLength, resumptions, drained, replied := false, 0, [], false, false;
    }

    /** The object is where its history leads, no filter was called after the local reply, and the
        two lists hold every registered filter, the dual ones in both. */
    ghost predicate Valid()
      reads this`decoderFilters, this`encoderFilters, this`registered, this`callsAtReply
      reads this`startLength, this`resumptions, this`started, this`drained, this`replied
      reads this`calls, this`filterAction, this`localResponseSent, this`messageLength
    {
      && Follows()
      && SilentAfterReply()
      && Registered()
    }

    /** The outcome of the history, not counting what happened since the last pause. */
    ghost function Past(): (o: Outcome)
      reads this`decoderFilters, this`startLength, this`resumptions
    {
      History(filters, |decoderFilters|, startLength, resumptions)
    }

    ghost predicate Follows()
      reads this`decoderFilters, this`startLength, this`resumptions, this`started, this`drained, this`replied
      reads this`calls, this`filterAction, this`localResponseSent, this`messageLength
    {
      if !started then calls == []
      else
        var o := Past();
        && calls == o.calls
        && filterAction == (o.status != ContinueIteration)
        && localResponseSent == (o.localReply || replied)
        && messageLength == (if drained then 0 else o.length)
    }

    ghost predicate SilentAfterReply()
      reads this`localResponseSent, this`calls, this`callsAtReply
    {
      localResponseSent ==> |calls| == callsAtReply
    }

    ghost predicate Registered()
      reads this`decoderFilters, this`encoderFilters, this`registered
    {
      multiset(FilterIds(decoderFilters)) + multiset(SingleIds(encoderFilters)) == multiset(registered)
    }

    lemma {:induction false} NothingCalledYet()
      requires Valid() && !started
      ensures calls == []
    {
    }

    // --- Building the chain, before any message ---

    method AddDecoderFilter(filter: nat)
      requires Valid() && !started
      modifies this`decoderFilters, this`registered
      ensures Valid() && registered == old(registered) + [filter]
      ensures decoderFilters == old(decoderFilters) + [Entry(filter, false)]
    {
      AddDecoderFilterWorker(filter, false);
      registered := registered + [filter];
    }

    method AddEncoderFilter(filter: nat)
      requires Valid() && !started
      modifies this`encoderFilters, this`registered
      ensures Valid() && registered == old(registered) + [filter]
      ensures encoderFilters == old(encoderFilters) + [Entry(filter, false)]
    {
      AddEncoderFilterWorker(filter, false);
      registered := registered + [filter];
    }

    /** Registers one filter for both directions. */
    method AddFilter(filter: nat)
      requires Valid() && !started
      modifies this`decoderFilters, this`encoderFilters, this`registered
      ensures Valid() && registered == old(registered) + [filter]
      ensures decoderFilters == old(decoderFilters) + [Entry(filter, true)]
      ensures encoderFilters == old(encoderFilters) + [Entry(filter, true)]
    {
      hide FilterIds, SingleIds, History;
      AddDecoderFilterWorker(filter, true);
      AddEncoderFilterWorker(filter, true);
      registered := registered + [filter];
    }

    method AddDecoderFilterWorker(filter: nat, dual: bool)
      modifies this`decoderFilters
      ensures decoderFilters == old(decoderFilters) + [Entry(filter, dual)]
      ensures FilterIds(decoderFilters) == FilterIds(old(decoderFilters)) + [filter]
    {
      decoderFilters := decoderFilters + [Entry(filter, dual)];
      assert decoderFilters[..|decoderFilters| - 1] == old(decoderFilters);
    }

    method AddEncoderFilterWorker(filter: nat, dual: bool)
      modifies this`encoderFilters
      ensures encoderFilters == old(encoderFilters) + [Entry(filter, dual)]
      ensures SingleIds(encoderFilters) == SingleIds(old(encoderFilters)) + if dual then [] else [filter]
    {
      encoderFilters := encoderFilters + [Entry(filter, dual)];
      assert encoderFilters[..|encoderFilters| - 1] == old(encoderFilters);
    }

    // --- Iterating ---

    /** Where an iteration starts: at the first filter, or at or behind the one that continues. */
    static function CommonDecodePrefix(from: int, state: StartState): (entry: nat)
      requires from >= -1
    {
      if from == -1 then 0 else if state == CanStartFromCurrent then from else from + 1
    }

    /** The outcome of an iteration from `entry` on; none takes place after a local reply. */
    ghost function Expected(entry: nat): (o: Outcome)
      reads this
    {
      if localResponseSent then Outcome(calls, ContinueIteration, true, messageLength)
      else Iterate(filters, |decoderFilters|, entry, calls, messageLength)
    }

    /** Calls the filters from the given position; -1 stands for the start of the chain. */
    method ApplyDecoderFilters(from: int, state: StartState) returns (status: FilterStatus)
      requires filterAction && -1 <= from < |decoderFilters| && SilentAfterReply()
      modifies this`calls, this`messageLength, this`localResponseSent, this`filterAction, this`callsAtReply
      ensures SilentAfterReply()
      ensures var o := old(Expected(CommonDecodePrefix(from, state)));
              && status == o.status
              && calls == o.calls
              && localResponseSent == o.localReply
              && messageLength == o.length
      ensures filterAction == (status != ContinueIteration)
      ensures Reports(filters, old(calls), calls, status)
    {
      if !localResponseSent {
        var entry := CommonDecodePrefix(from, state);
        ghost var o := Expected(entry);
        IterateReports(filters, |decoderFilters|, entry, calls, messageLength);
        while entry < |decoderFilters|
          invariant !localResponseSent && filterAction
          invariant o == Iterate(filters, |decoderFilters|, entry, calls, messageLength)
          decreases |decoderFilters| - entry
        {
          calls := calls + [entry];
          var r := filters(calls);
          if r.drains {
            messageLength := 0;
          }
          if r.sendsLocalReply {
            SendLocalReply(false);
          }
          if localResponseSent {
            break;
          }
          if r.status != ContinueIteration {
            return r.status;
          }
          entry := entry + 1;
        }
      }
      filterAction := false;
      return ContinueIteration;
    }

    /** A reply that closes the connection does not count as answering the message. */
    method SendLocalReply(endStream: bool)
      modifies this`localResponseSent, this`callsAtReply
      ensures localResponseSent == (old(localResponseSent) || !endStream)
      ensures callsAtReply == if old(localResponseSent) || endStream then old(callsAtReply) else |calls|
    {
      if endStream {
        return;
      }
      if !localResponseSent {
        callsAtReply := |calls|;
      }
      localResponseSent := true;
    }

    /** While the iteration is paused the message may be taken out of its buffer. */
    method Drain()
      requires Valid() && started
      modifies this`messageLength, this`drained
      ensures Valid() && messageLength == 0
    {
      messageLength := 0;
      drained := true;
    }

    /** Likewise it may be answered. */
    method Reply(endStream: bool)
      requires Valid() && started
      modifies this`localResponseSent, this`callsAtReply, this`replied
      ensures Valid() && localResponseSent == (old(localResponseSent) || !endStream)
    {
      hide Registered, History;
      SendLocalReply(endStream);
      replied := replied || !endStream;
    }

    method StartFilters(length: nat) returns (status: FilterStatus)
      requires Valid() && !started && !localResponseSent
      modifies this`calls, this`messageLength, this`localResponseSent, this`filterAction, this`callsAtReply
      modifies this`started, this`startLength, this`resumptions, this`drained, this`replied
      ensures Valid() && status == Past().status
      ensures started && startLength == length && resumptions == [] && !drained && !replied
      ensures Reports(filters, [], calls, status)
    {
      hide Registered, Iterate, History, Reports;
      NothingCalledYet();
      HistoryStarts(filters, |decoderFilters|, length);
      messageLength := length;
      filterAction := true;
      started, startLength, resumptions, drained, replied := true, length, [], false, false;
      status := ApplyDecoderFilters(-1, CanStartFromCurrent);
    }

    method ResumeFilters(current: nat) returns (status: FilterStatus)
      requires Valid() && started && IsPaused(Past()) && current == calls[|calls| - 1]
      modifies this`calls, this`messageLength, this`localResponseSent, this`filterAction, this`callsAtReply
      modifies this`resumptions, this`drained, this`replied
      ensures Valid() && status == Past().status && !drained && !replied
      ensures resumptions == old(resumptions) + [Resumption(old(drained), old(replied))]
      ensures Reports(filters, old(calls), calls, status)
    {
      hide Registered, Iterate, History, Reports;
      ghost var o, r, n := Past(), Resumption(drained, replied), |decoderFilters|;
      HistoryInOrder(filters, n, startLength, resumptions);
      assert current in o.calls;
      StoppedIsNotAnswered(filters, n, startLength, resumptions);
      HistoryOneMore(filters, n, startLength, resumptions, r);
      var state := AlwaysStartFromNext;
      if messageLength != 0 {
        state := CanStartFromCurrent;
      }
      assert Expected(CommonDecodePrefix(current, state)) == Continued(filters, n, o, r);
      resumptions, drained, replied := resumptions + [r], false, false;
      status := ApplyDecoderFilters(current, state);
    }

    /** The message has been decoded: runs it through the chain from the start. A message that
        skips the filters, is answered, aborted or one-way leaves the list of active messages. */
    method OnMessageDecoded(messageType: MessageType, length: nat) returns (status: FilterStatus)
      requires Valid() && !started && inserted && !localResponseSent
      modifies this
      ensures Valid() && registered == old(registered) && this.messageType == messageType
      ensures decoderFilters == old(decoderFilters)
      ensures messageType !in {Request, StreamInit} ==>
                && !started && calls == [] && !pendingStreamDecoded
                && inserted == (messageType in {Response, Error})
      ensures messageType in {Request, StreamInit} ==>
                && started && startLength == length && resumptions == [] && !drained && !replied
                && status == Past().status && Reports(filters, [], calls, status)
                && pendingStreamDecoded == (calls != [] && !filters(calls).sendsLocalReply
                                            && filters(calls).status == PauseIteration)
                && inserted == (pendingStreamDecoded
                                || (status == ContinueIteration && !localResponseSent && messageType == Request))
    {
      hide Valid, Past, IsOneWay;
      NothingCalledYet();
      OneWayTypes(messageType);
      this.messageType := messageType;
      status := ContinueIteration;
      pendingStreamDecoded := false;
      if NeedsFilters(messageType) {
        status := StartFilters(length);
        Settle(status);
      } else {
        MaybeDeferredDelete();
      }
    }

    /** The filter that paused the iteration continues it: from behind itself if the message has
        been taken out of its buffer, from itself if not, and not at all after a local reply. */
    method ContinueDecoding(current: nat) returns (status: FilterStatus)
      requires Valid() && started && IsPaused(Past()) && current == calls[|calls| - 1]
      modifies this
      ensures Valid() && registered == old(registered) && decoderFilters == old(decoderFilters)
      ensures started && startLength == old(startLength) && !drained && !replied
      ensures resumptions == old(resumptions) + [Resumption(old(drained), old(replied))]
      ensures status == Past().status && Reports(filters, old(calls), calls, status)
      ensures pendingStreamDecoded == (old(pendingStreamDecoded) && status != ContinueIteration)
      ensures inserted == (old(inserted)
                           && !(status == ContinueIteration && old(pendingStreamDecoded)
                                && (localResponseSent || messageType !in {Request, Response, Error})))
    {
      OneWayTypes(messageType);
      hide Valid, Past, IsPaused, Reports, IsOneWay;
      status := ResumeFilters(current);
      if status == ContinueIteration {
        if pendingStreamDecoded {
          MaybeDeferredDelete();
        }
      }
    }

    /** The filters called are a prefix of the chain, in order and without gaps or repetitions, if
        and only if none continued the iteration with its message still there. */
    lemma {:induction false} InOrderIff()
      requires Valid() && started
      ensures InOrder(calls, |decoderFilters|) <==> AlwaysDrained(filters, |decoderFilters|, startLength, resumptions)
    {
      HistoryInOrder(filters, |decoderFilters|, startLength, resumptions);
    }

    /** What becomes of the message after its first iteration. */
    method Settle(status: FilterStatus)
      requires !pendingStreamDecoded
      modifies this`pendingStreamDecoded, this`inserted
      ensures pendingStreamDecoded == (status == PauseIteration)
      ensures inserted == (old(inserted) && status != AbortIteration
                           && (status == PauseIteration || (!localResponseSent && !IsOneWay(messageType))))
    {
      match status {
        case PauseIteration => pendingStreamDecoded := true;
        case AbortIteration => DeferredDelete();
        case ContinueIteration => MaybeDeferredDelete();
      }
    }

    method MaybeDeferredDelete()
      modifies this`pendingStreamDecoded, this`inserted
      ensures !pendingStreamDecoded
      ensures inserted == (old(inserted) && !localResponseSent && !IsOneWay(messageType))
    {
      pendingStreamDecoded := false;
      if localResponseSent || IsOneWay(messageType) {
        DeferredDelete();
      }
    }

    method DeferredDelete()
      modifies this`inserted
      ensures !inserted
    {
      if !inserted {
        return;
      }
      inserted := false;
    }

    /** Destruction: every filter is destroyed as often as it was registered, a dual filter once. */
    method Destroy()
      requires Registered() && destroyed == []
      modifies this`destroyed
      ensures multiset(destroyed) == multiset(registered)
    {
      hide FilterIds, SingleIds;
      DestroyDecoderFilters();
      DestroyEncoderFilters();
    }

    method DestroyDecoderFilters()
      modifies this`destroyed
      ensures destroyed == old(destroyed) + FilterIds(decoderFilters)
    {
      for i := 0 to |decoderFilters|
        invariant destroyed == old(destroyed) + FilterIds(decoderFilters[..i])
      {
        destroyed := destroyed + [decoderFilters[i].filter];
        assert decoderFilters[..i + 1][..i] == decoderFilters[..i];
      }
      assert decoderFilters[..|decoderFilters|] == decoderFilters;
    }

    method DestroyEncoderFilters()
      modifies this`destroyed
      ensures destroyed == old(destroyed) + SingleIds(encoderFilters)
    {
      for i := 0 to |encoderFilters|
        invariant destroyed == old(destroyed) + SingleIds(encoderFilters[..i])
      {
        if !encoderFilters[i].dual {
          destroyed := destroyed + [encoderFilters[i].filter];
        }
        assert encoderFilters[..i + 1][..i] == encoderFilters[..i];
      }
      assert encoderFilters[..|encoderFilters|] == encoderFilters;
    }
  }

  /** Going on behind the last call keeps the calls a prefix of the chain. */
  lemma IterateInOrder(filters: Filters, n: nat, calls: seq<nat>, length: nat)
    requires InOrder(calls, n)
    ensures InOrder(Iterate(filters, n, |calls|, calls, length).calls, n)
  {
    IterateCalls(filters, n, |calls|, calls, length);
    var o := Iterate(filters, n, |calls|, calls, length);
    assert calls + Range(|calls|, |o.calls|) == Range(0, |o.calls|);
  }

  /** Filters registered once each are destroyed once each. */
  lemma DestroyedOnce(destroyed: seq<nat>, registered: seq<nat>, filter: nat)
    requires multiset(destroyed) == multiset(registered)
    requires forall i, j | 0 <= i < j < |registered| :: registered[i] != registered[j]
    ensures multiset(destroyed)[filter] == if filter in registered then 1 else 0
  {
    CountOnce(registered, filter);
  }

  lemma {:induction false} CountOnce(s: seq<nat>, x: nat)
    requires forall i, j | 0 <= i < j < |s| :: s[i] != s[j]
    ensures multiset(s)[x] == if x in s then 1 else 0
  {
    if s != [] {
      var k := |s| - 1;
      CountOnce(s[..k], x);
      assert s == s[..k] + [s[k]];
    }
  }
}
