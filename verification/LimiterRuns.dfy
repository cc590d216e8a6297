/** What holds along every run of the rate limiter's timer, whatever the workers do meanwhile, and
    runs that reach the limits of its promises. */
module LimiterRuns {
  import opened Bytes
  import opened RateLimiter
  import RefillSchedule

  // ----- When buckets are refilled -----

  /** In this run the callback never begins more than `g` nanoseconds after the one before. */
  ghost predicate Punctual(l: Limiter, s: System, events: seq<Event>, g: nat)
    requires Inv(l, s)
    decreases |events|
  {
    events == [] ||
    (&& (events[0].Fire? && Fires(s) ==> s.now - s.fired <= g)
     && (NextKeeps(l, s, events[0]); Punctual(l, Next(l, s, events[0]), events[1..], g)))
  }

  function Wait(b: Bucket): (n: nat) { b.fillInterval * NANOS_PER_MILLI }

  /** The callback in progress, or the last one, has dealt with bucket `i`. */
  predicate Scanned(s: System, i: nat) {
    s.timer.Resting? || i < s.timer.at
  }

  /** When the callback last began, a bucket it has dealt with had not waited a whole interval.
      The fallback bucket, filled at the clock's epoch as it were, is left out until its first turn. */
  ghost predicate NotOverdue(l: Limiter, s: System, i: nat)
    requires i < |s.cells| && i < |l.buckets|
  {
    Scanned(s, i) && (l.buckets[i].isGlobal ==> s.firings > 0) ==>
      s.fired - s.cells[i].fillTime < Wait(l.buckets[i])
  }

  /** A bucket it has not dealt with yet had not waited `g` longer than that. */
  ghost predicate NotLate(l: Limiter, s: System, g: nat, i: nat)
    requires i < |s.cells| && i < |l.buckets|
  {
    !Scanned(s, i) && (l.buckets[i].isGlobal ==> s.firings > 1) ==>
      s.fired - s.cells[i].fillTime < Wait(l.buckets[i]) + g
  }

  lemma StepNotOverdue(l: Limiter, s: System, e: Event, i: nat)
    requires Inv(l, s) && i < |l.buckets| && l.buckets[i].fillInterval > 0
    requires NotOverdue(l, s, i)
    ensures NotOverdue(l, Next(l, s, e), i)
  {
    if e.Scan? && s.timer.Scanning? && s.timer.at < |l.buckets| {
      var at := s.timer.at;
      DueInNanos(l.buckets[at], s.timer.current, s.cells[at].fillTime);
    }
  }

  lemma StepNotLate(l: Limiter, s: System, e: Event, g: nat, i: nat)
    requires Inv(l, s) && i < |l.buckets|
    requires NotOverdue(l, s, i) && NotLate(l, s, g, i)
    requires e.Fire? && Fires(s) ==> s.now - s.fired <= g
    ensures NotLate(l, Next(l, s, e), g, i)
  {
  }

  lemma {:induction false} RunNotOverdue(l: Limiter, s: System, events: seq<Event>, i: nat)
    requires Inv(l, s) && i < |l.buckets| && l.buckets[i].fillInterval > 0
    requires NotOverdue(l, s, i)
    ensures NotOverdue(l, Execute(l, s, events), i)
    decreases |events|
  {
    hide Next, NotOverdue;
    if events != [] {
      NextKeeps(l, s, events[0]);
      StepNotOverdue(l, s, events[0], i);
      RunNotOverdue(l, Next(l, s, events[0]), events[1..], i);
    }
  }

  lemma {:induction false} RunNotLate(l: Limiter, s: System, events: seq<Event>, g: nat, i: nat)
    requires Inv(l, s) && i < |l.buckets| && l.buckets[i].fillInterval > 0
    requires NotOverdue(l, s, i) && NotLate(l, s, g, i) && Punctual(l, s, events, g)
    ensures NotLate(l, Execute(l, s, events), g, i)
    decreases |events|
  {
    hide Next, NotOverdue, NotLate;
    if events != [] {
      NextKeeps(l, s, events[0]);
      StepNotOverdue(l, s, events[0], i);
      StepNotLate(l, s, events[0], g, i);
      RunNotLate(l, Next(l, s, events[0]), events[1..], g, i);
    }
  }

  /** A limiter made by now, all its buckets with it. */
  ghost predicate Made(l: Limiter, now: nat) {
    && ValidLimiter(l)
    && l.made <= now
    && (forall i | 0 <= i < |l.buckets| :: l.buckets[i].born <= now && l.buckets[i].fillInterval > 0)
  }

  lemma StartsInTime(l: Limiter, now: nat, g: nat, i: nat)
    requires Made(l, now) && i < |l.buckets|
    ensures Inv(l, Initial(l, now)) && NotOverdue(l, Initial(l, now), i) && NotLate(l, Initial(l, now), g, i)
  {
    InitialInv(l, now);
  }

  /** The refill that step `e` completes, if it does, and what it says of the time since the last. */
  lemma StampGap(l: Limiter, s: System, e: Event, i: nat)
    requires Inv(l, s) && i < |l.buckets|
    requires Next(l, s, e).cells[i].fillTime != s.cells[i].fillTime
    ensures !Scanned(s, i) && Next(l, s, e).cells[i].fillTime == s.fired
    ensures s.fired - s.cells[i].fillTime >= Wait(l.buckets[i])
  {
    DueInNanos(l.buckets[i], s.timer.current, s.cells[i].fillTime);
  }

  /** Refill schedule: in every run, with any number of requests in between, two refills of a bucket
      are at least its interval apart; if callbacks begin at most `g` after one another, the second
      comes less than `g` after the interval has ended. */
  lemma {:induction false} RefillGaps(l: Limiter, now: nat, events: seq<Event>, e: Event, g: nat, i: nat)
    requires Made(l, now) && i < |l.buckets|
    ensures Inv(l, Initial(l, now))
    ensures var s := Execute(l, Initial(l, now), events);
      var before, after := s.cells[i].fillTime, Next(l, s, e).cells[i].fillTime;
      after != before ==>
        && Wait(l.buckets[i]) <= after - before
        && (Punctual(l, Initial(l, now), events, g) && (l.buckets[i].isGlobal ==> s.firings > 1) ==>
              after - before < Wait(l.buckets[i]) + g)
  {
    hide Next, NotOverdue;
    StartsInTime(l, now, g, i);
    var s0 := Initial(l, now);
    var s := Execute(l, s0, events);
    if Next(l, s, e).cells[i].fillTime != s.cells[i].fillTime {
      StampGap(l, s, e, i);
    }
    if Punctual(l, s0, events, g) {
      RunNotLate(l, s0, events, g, i);
    }
  }

  /** No callback leaves a bucket overdue, whatever the workers did during it. */
  lemma NeverOverdue(l: Limiter, now: nat, events: seq<Event>, i: nat)
    requires Made(l, now) && i < |l.buckets|
    ensures Inv(l, Initial(l, now))
    ensures var s := Execute(l, Initial(l, now), events);
      s.timer.Resting? && s.firings > 0 ==> s.fired - s.cells[i].fillTime < Wait(l.buckets[i])
  {
    StartsInTime(l, now, 0, i);
    RunNotOverdue(l, Initial(l, now), events, i);
  }

  /** Callbacks begin at least a period after one another. */
  lemma FiringsApart(l: Limiter, s: System, events: seq<Event>)
    requires Inv(l, s)
    ensures var s' := Execute(l, s, events);
      Fires(s') ==> Next(l, s', Fire).fired - s'.fired >= PeriodNanos(l)
  {
    assert Timed(l, Execute(l, s, events));
  }

  // ----- Runs with given results -----

  ghost predicate Reaches(l: Limiter, s: System, s': System)
    requires Inv(l, s)
  {
    exists events :: Execute(l, s, events) == s'
  }

  lemma {:induction false} ExecuteConcat(l: Limiter, s: System, a: seq<Event>, b: seq<Event>)
    requires Inv(l, s)
    ensures Execute(l, s, a + b) == Execute(l, Execute(l, s, a), b)
    decreases |a|
  {
    hide Next;
    if a == [] {
      assert a + b == b;
    } else {
      NextKeeps(l, s, a[0]);
      assert (a + b)[1..] == a[1..] + b;
      ExecuteConcat(l, Next(l, s, a[0]), a[1..], b);
    }
  }

  lemma {:induction false} ReachesOne(l: Limiter, s: System, e: Event)
    requires Inv(l, s)
    ensures Inv(l, Next(l, s, e)) && Reaches(l, s, Next(l, s, e))
  {
    hide Next;
    NextKeeps(l, s, e);
    assert Execute(l, s, [e]) == Next(l, s, e) by { assert [e][1..] == []; }
  }

  lemma {:induction false} ReachesOn(l: Limiter, s: System, s1: System, s2: System)
    requires Inv(l, s) && Reaches(l, s, s1) && Inv(l, s1) && Reaches(l, s1, s2)
    ensures Inv(l, s2) && Reaches(l, s, s2)
  {
    hide Next;
    var a :| Execute(l, s, a) == s1;
    var b :| Execute(l, s1, b) == s2;
    ExecuteConcat(l, s, a, b);
  }

  lemma {:induction false} ReachesStep(l: Limiter, s: System, s1: System, e: Event)
    requires Inv(l, s) && Reaches(l, s, s1) && Inv(l, s1)
    ensures Inv(l, Next(l, s1, e)) && Reaches(l, s, Next(l, s1, e))
  {
    hide Next, Reaches;
    ReachesOne(l, s1, e);
    ReachesOn(l, s, s1, Next(l, s1, e));
  }

  // ----- The moves of the timer -----

  /** The timer, set for some time up to `t`, goes off at `t`. */
  function FiredAt(s: System, t: nat): (s': System) {
    s.(now := t, timer := Scanning(t, 0), fired := t, firings := s.firings + 1)
  }

  lemma WaitAndFire(l: Limiter, s: System, t: nat)
    requires Inv(l, s) && s.timer.Resting? && s.now <= t && s.armed <= t
    ensures Inv(l, FiredAt(s, t)) && Reaches(l, s, FiredAt(s, t))
  {
    var wait := Elapse(t - s.now);
    ReachesOne(l, s, wait);
    ReachesStep(l, s, Next(l, s, wait), Fire);
  }

  predicate AtDue(l: Limiter, s: System)
    requires Shaped(l, s)
  {
    && s.timer.Scanning?
    && s.timer.at < |l.buckets|
    && Due(l.buckets[s.timer.at], s.timer.current, s.cells[s.timer.at].fillTime)
  }

  /** The timer has loaded the tokens of a bucket that is due. */
  function Loaded(s: System): (s': System)
    requires s.timer.Scanning? && s.timer.at < |s.cells|
  {
    var c := s.cells[s.timer.at];
    s.(timer := Filling(s.timer.current, s.timer.at, c.tokens, Changes(c)))
  }

  lemma Load(l: Limiter, s: System)
    requires Inv(l, s) && AtDue(l, s)
    ensures Inv(l, Loaded(s)) && Reaches(l, s, Loaded(s))
  {
    ReachesOne(l, s, Scan);
  }

  function Swapped(l: Limiter, s: System): (s': System)
    requires s.timer.Filling? && s.timer.at < |s.cells| && s.timer.at < |l.buckets|
  {
    var i, c := s.timer.at, s.cells[s.timer.at];
    var t := Refilled(l.buckets[i], c.tokens);
    s.(timer := Stamping(s.timer.current, i),
       cells := s.cells[i := c.(tokens := t, refills := c.refills + 1, added := c.added + t - c.tokens)])
  }

  lemma Swap(l: Limiter, s: System)
    requires Inv(l, s) && s.timer.Filling? && s.timer.expected == s.cells[s.timer.at].tokens
    ensures Next(l, s, TryFill(false)) == Swapped(l, s)
    ensures Inv(l, Swapped(l, s)) && Reaches(l, s, Swapped(l, s))
  {
    ReachesOne(l, s, TryFill(false));
  }

  // ----- The moves of a worker -----

  predicate Free(s: System, w: nat) {
    w !in s.workers || s.workers[w] == Idle
  }

  /** A request that takes one token from bucket `i` undisturbed. */
  function Taken(s: System, w: nat, i: nat): (s': System)
    requires i < |s.cells| && s.cells[i].tokens > 0
  {
    var c := s.cells[i];
    s.(workers := s.workers[w := Idle], cells := s.cells[i := c.(tokens := c.tokens - 1, admitted := c.admitted + 1)])
  }

  lemma TakeOne(l: Limiter, s: System, w: nat, matches: seq<bool>, i: nat)
    requires Inv(l, s) && Free(s, w)
    requires |matches| == |Conditions(l)| && Choose(l, matches) == Meter(i)
    requires s.cells[i].tokens > 0
    ensures Inv(l, Taken(s, w, i)) && Reaches(l, s, Taken(s, w, i))
  {
    ReachesOne(l, s, Request(w, matches));
    var s1 := Next(l, s, Request(w, matches));
    assert s1 == s.(workers := s.workers[w := Trying(i, s.cells[i].tokens, Changes(s.cells[i]))]);
    ReachesStep(l, s, s1, TryTake(w, false));
    assert s1.workers[w := Idle] == s.workers[w := Idle];
    assert Next(l, s1, TryTake(w, false)) == Taken(s, w, i);
  }

  /** Requests that take all the tokens of a bucket, one after another. */
  lemma {:induction false} TakeAll(l: Limiter, s: System, w: nat, matches: seq<bool>, i: nat) returns (s': System)
    requires Inv(l, s) && Free(s, w)
    requires |matches| == |Conditions(l)| && Choose(l, matches) == Meter(i)
    ensures Inv(l, s') && Reaches(l, s, s') && Free(s', w)
    ensures s' == s.(workers := s'.workers, cells := s'.cells)
    ensures s'.cells[i].tokens == 0 && s'.cells[i].admitted == s.cells[i].admitted + s.cells[i].tokens
    ensures s'.cells[i].fillTime == s.cells[i].fillTime
    decreases s.cells[i].tokens
  {
    hide Next;
    if s.cells[i].tokens == 0 {
      assert Execute(l, s, []) == s;
      s' := s;
    } else {
      TakeOne(l, s, w, matches, i);
      var s1 := Taken(s, w, i);
      s' := TakeAll(l, s1, w, matches, i);
      ReachesOn(l, s, s1, s');
    }
  }

  /** No request is stuck: left alone, a worker that has seen a token takes one if one is still
      there, and is refused otherwise. */
  lemma {:induction false} RequestIsDecided(l: Limiter, s: System, w: nat) returns (s': System)
    requires Inv(l, s) && w in s.workers && s.workers[w].Trying?
    ensures Inv(l, s') && Reaches(l, s, s')
    ensures var i := s.workers[w].bucket;
      s' == if s.workers[w].expected > 0 && s.cells[i].tokens > 0 then Taken(s, w, i)
            else s.(workers := s.workers[w := Idle])
  {
    hide Reaches;
    var t := s.workers[w];
    var c := s.cells[t.bucket];
    if t.expected == 0 {
      ReachesOne(l, s, Refuse(w));
      s' := Next(l, s, Refuse(w));
    } else {
      ReachesOne(l, s, TryTake(w, true));
      var s1 := Next(l, s, TryTake(w, true));
      assert s1 == s.(workers := s.workers[w := Trying(t.bucket, c.tokens, Changes(c))]);
      assert s1.workers[w := Idle] == s.workers[w := Idle];
      var last := if c.tokens == 0 then Refuse(w) else TryTake(w, false);
      ReachesStep(l, s, s1, last);
      s' := Next(l, s1, last);
    }
  }

  // ----- The extra fill of the fallback bucket -----

  /** The admissions that a bucket's limits suggest: its maximum, and a fill per full interval. */
  ghost predicate WithinRate(l: Limiter, s: System, i: nat)
    requires Inv(l, s) && i < |l.buckets| && l.buckets[i].fillInterval > 0
  {
    var b := l.buckets[i];
    s.cells[i].admitted <= b.maxTokens + b.tokensPerFill * (Elapsed(s.now, b.born) / b.fillInterval)
  }

  ghost predicate HasGlobal(l: Limiter) {
    Made(l, l.made) && l.hasGlobal
  }

  /** The fallback bucket hands out tokens and gets new ones, and was made after the epoch. */
  predicate IsBusy(l: Limiter)
    requires l.buckets != []
  {
    l.buckets[0].maxTokens > 0 && l.buckets[0].tokensPerFill > 0 && l.made > 0
  }

  function NoMatch(l: Limiter): (ms: seq<bool>)
    requires ValidLimiter(l)
  {
    seq(|Conditions(l)|, _ => false)
  }

  /** The first callback comes before the interval has ended, but long after the epoch. */
  function Early(l: Limiter): (t: nat)
    requires l.buckets != []
  {
    var first := l.made + PeriodNanos(l);
    if first < Wait(l.buckets[0]) then Wait(l.buckets[0]) else first
  }

  lemma {:induction false} FillEarly(l: Limiter, s: System) returns (s': System)
    requires Inv(l, s) && HasGlobal(l) && IsBusy(l) && l.period < l.buckets[0].fillInterval
    requires s.timer.Resting? && s.now == l.made && s.armed == l.made + PeriodNanos(l)
    requires s.cells[0].tokens == 0 && s.cells[0].fillTime == 0
    ensures Inv(l, s') && Reaches(l, s, s')
    ensures s'.now == Early(l) && s'.workers == s.workers
    ensures s'.cells[0].tokens > 0 && s'.cells[0].admitted == s.cells[0].admitted
  {
    var t := Early(l);
    DueInNanos(l.buckets[0], t, 0);
    hide Next, Due;
    WaitAndFire(l, s, t);
    var s1 := FiredAt(s, t);
    Load(l, s1);
    var s2 := Loaded(s1);
    Swap(l, s2);
    s' := Swapped(l, s2);
    ReachesOn(l, s, s1, s2);
    ReachesOn(l, s, s2, s');
  }

  lemma EarlyIsEarly(l: Limiter)
    requires HasGlobal(l) && IsBusy(l) && l.period < l.buckets[0].fillInterval
    ensures l.made <= Early(l) && Elapsed(Early(l), l.made) / l.buckets[0].fillInterval == 0
  {
    var b := l.buckets[0];
    DueInNanos(b, Early(l), l.made);
    var ms := Elapsed(Early(l), l.made);
    assert ms < b.fillInterval;
  }

  lemma {:induction false} ExceedsRate(l: Limiter) returns (s': System)
    requires HasGlobal(l) && IsBusy(l) && l.period < l.buckets[0].fillInterval
    ensures Inv(l, Initial(l, l.made)) && Reaches(l, Initial(l, l.made), s') && Inv(l, s')
    ensures !WithinRate(l, s', 0)
  {
    InitialInv(l, l.made);
    var s0 := Initial(l, l.made);
    var ms := NoMatch(l);
    assert Choose(l, ms) == Meter(0);
    assert s0.cells[0] == FullCell(l.buckets[0]);
    hide Next, Inv, Choose;
    var s1 := TakeAll(l, s0, 0, ms, 0);
    var s2 := FillEarly(l, s1);
    TakeOne(l, s2, 0, ms, 0);
    s' := Taken(s2, 0, 0);
    ReachesOn(l, s0, s1, s2);
    ReachesOn(l, s0, s2, s');
    EarlyIsEarly(l);
    assert l.buckets[0].tokensPerFill * 0 == 0;
  }

  /** The fallback bucket keeps within its rate in every run if and only if no condition has made
      the timer faster than its interval, or it never hands out or gets a token, or was made at the
      epoch. */
  lemma {:induction false} GlobalRateIff(l: Limiter)
    requires HasGlobal(l)
    ensures Inv(l, Initial(l, l.made))
    ensures (forall s | Reaches(l, Initial(l, l.made), s) :: Inv(l, s) && WithinRate(l, s, 0))
            <==> l.buckets[0].fillInterval <= l.period || !IsBusy(l)
  {
    InitialInv(l, l.made);
    var s0 := Initial(l, l.made);
    hide Next;
    if l.period < l.buckets[0].fillInterval && IsBusy(l) {
      var s := ExceedsRate(l);
    } else {
      forall s | Reaches(l, s0, s)
        ensures Inv(l, s) && WithinRate(l, s, 0)
      {
        KeepsRate(l, s0, s);
      }
    }
  }

  function Intervals(bs: seq<Bucket>): (xs: seq<nat>)
    ensures |xs| == |bs| && forall i | 0 <= i < |bs| :: xs[i] == bs[i].fillInterval
  {
    seq(|bs|, i requires 0 <= i < |bs| => bs[i].fillInterval)
  }

  /** In a limiter with the period that its constructor chooses, a busy fallback bucket keeps within
      its rate in every run if and only if no condition has a shorter interval. */
  lemma {:induction false} GlobalRateByConfiguration(l: Limiter)
    requires HasGlobal(l) && IsBusy(l)
    requires l.period == RefillSchedule.Period([l.buckets[0].fillInterval] + Intervals(Conditions(l)))
    ensures Inv(l, Initial(l, l.made))
    ensures (forall s | Reaches(l, Initial(l, l.made), s) :: Inv(l, s) && WithinRate(l, s, 0))
            <==> forall i | 0 <= i < |Conditions(l)| :: l.buckets[0].fillInterval <= Conditions(l)[i].fillInterval
  {
    hide Inv, Reaches;
    GlobalRateIff(l);
    RefillSchedule.GlobalSetsPeriodIff(l.buckets[0].fillInterval, Intervals(Conditions(l)));
  }

  lemma {:induction false} KeepsRate(l: Limiter, s0: System, s: System)
    requires HasGlobal(l) && (l.buckets[0].fillInterval <= l.period || !IsBusy(l))
    requires Inv(l, s0) && Reaches(l, s0, s)
    ensures Inv(l, s) && WithinRate(l, s, 0)
  {
    hide Next, FillIsDue, FreshUnlessOvertaken, Paced, Timed, Elapsed;
    var events :| Execute(l, s0, events) == s;
    var b := l.buckets[0];
    AdmissionsAreBounded(l, s0, events, 0);
    var fills := Elapsed(s.now, b.born) / b.fillInterval;
    if b.maxTokens == 0 || b.tokensPerFill == 0 {
      assert Balanced(b, s.cells[0]);
      NothingAdded(b, s.cells[0], fills);
    } else {
      assert ExtraFills(l, b) + fills == fills;
    }
  }

  lemma NothingAdded(b: Bucket, c: Cell, fills: nat)
    requires Balanced(b, c) && (b.maxTokens == 0 || b.tokensPerFill == 0)
    ensures c.admitted <= b.maxTokens + b.tokensPerFill * fills
  {
    if b.tokensPerFill == 0 {
      assert c.refills * b.tokensPerFill == 0;
    }
  }

  // ----- One callback, undisturbed -----

  /** What a callback leaves of a bucket. */
  function Refreshed(b: Bucket, current: nat, c: Cell): (c': Cell)
    requires c.fillTime <= current
  {
    if Due(b, current, c.fillTime) then
      var t := Refilled(b, c.tokens);
      c.(tokens := t, fillTime := current, refills := c.refills + 1, added := c.added + t - c.tokens)
    else c
  }

  /** The callback has dealt with the bucket it was at and goes on to the next. */
  function Passed(l: Limiter, s: System): (s': System)
    requires Shaped(l, s) && s.timer.Scanning? && s.timer.at < |l.buckets|
  {
    var at := s.timer.at;
    s.(timer := Scanning(s.timer.current, at + 1),
       cells := s.cells[at := Refreshed(l.buckets[at], s.timer.current, s.cells[at])])
  }

  lemma PassOne(l: Limiter, s: System)
    requires Inv(l, s) && s.timer.Scanning? && s.timer.at < |l.buckets|
    ensures Inv(l, Passed(l, s)) && Reaches(l, s, Passed(l, s))
  {
    if AtDue(l, s) {
      Load(l, s);
      var s1 := Loaded(s);
      Swap(l, s1);
      var s2 := Swapped(l, s1);
      ReachesOn(l, s, s1, s2);
      StampAndGoOn(l, s, s1, s2);
    } else {
      ReachesOne(l, s, Scan);
      assert s.cells[s.timer.at := s.cells[s.timer.at]] == s.cells;
      assert Next(l, s, Scan) == Passed(l, s);
    }
  }

  lemma StampAndGoOn(l: Limiter, s: System, s1: System, s2: System)
    requires Inv(l, s) && AtDue(l, s) && s1 == Loaded(s) && s2 == Swapped(l, s1)
    requires Inv(l, s2) && Reaches(l, s, s2)
    ensures Inv(l, Passed(l, s)) && Reaches(l, s, Passed(l, s))
  {
    ReachesStep(l, s, s2, Stamp);
    assert Next(l, s2, Stamp) == Passed(l, s);
  }

  /** An undisturbed callback refills and stamps exactly the buckets that are due, and leaves all
      others alone. */
  lemma {:induction false} PassMany(l: Limiter, s: System, end: nat) returns (s': System)
    requires Inv(l, s) && s.timer.Scanning? && s.timer.at <= end <= |l.buckets|
    ensures Inv(l, s') && Reaches(l, s, s')
    ensures s' == s.(timer := Scanning(s.timer.current, end), cells := s'.cells)
    ensures forall i | 0 <= i < |s.cells| ::
      s'.cells[i] ==
      (if s.timer.at <= i < end then Refreshed(l.buckets[i], s.timer.current, s.cells[i]) else s.cells[i])
    decreases end - s.timer.at
  {
    hide Next, Due;
    if s.timer.at == end {
      assert Execute(l, s, []) == s;
      s' := s;
    } else {
      PassOne(l, s);
      var s1 := Passed(l, s);
      s' := PassMany(l, s1, end);
      ReachesOn(l, s, s1, s');
    }
  }

  // ----- The timer on time -----

  /** The callback is over, and the timer set for one period later. */
  function Rested(l: Limiter, s: System): (s': System) {
    s.(timer := Resting, armed := s.now + l.period * 1_000_000)
  }

  /** Nothing but the end of a callback sets the timer. */
  lemma TimerIsSetAgain(l: Limiter, s: System, e: Event)
    requires Inv(l, s)
    ensures var s' := Next(l, s, e);
      if !s.timer.Resting? && s'.timer.Resting? then s' == Rested(l, s) else s'.armed == s.armed
  {
  }

  /** A scanning callback, undisturbed, goes through the rest of the buckets and sets the timer. */
  lemma {:induction false} ScanToEnd(l: Limiter, s: System) returns (s': System)
    requires Inv(l, s) && s.timer.Scanning?
    ensures Inv(l, s') && Reaches(l, s, s')
    ensures s' == Rested(l, s).(cells := s'.cells)
    ensures forall i | 0 <= i < |s.cells| ::
      s'.cells[i] == if s.timer.at <= i then Refreshed(l.buckets[i], s.timer.current, s.cells[i]) else s.cells[i]
  {
    hide Reaches, Due;
    var s1 := PassMany(l, s, |l.buckets|);
    ReachesStep(l, s, s1, Scan);
    s' := Next(l, s1, Scan);
  }

  /** No callback is stuck: wherever it is, it can go on to its end at once, and then the timer is set
      for exactly one period later. */
  lemma {:induction false} CallbackEnds(l: Limiter, s: System) returns (s': System)
    requires Inv(l, s) && !s.timer.Resting?
    ensures Inv(l, s') && Reaches(l, s, s')
    ensures s' == Rested(l, s).(cells := s'.cells)
    decreases if s.timer.Filling? then 1 else 0
  {
    hide Reaches;
    match s.timer
    case Scanning(_, _) => s' := ScanToEnd(l, s);
    case Stamping(_, _) =>
      ReachesOne(l, s, Stamp);
      s' := ScanToEnd(l, Next(l, s, Stamp));
      ReachesOn(l, s, Next(l, s, Stamp), s');
    case Filling(current, at, _, _) =>
      var c := s.cells[at];
      var s1 := s.(timer := Filling(current, at, c.tokens, Changes(c)));
      assert Next(l, s, TryFill(true)) == s1;
      ReachesOne(l, s, TryFill(true));
      Swap(l, s1);
      ReachesOn(l, s, s1, Swapped(l, s1));
      s' := CallbackEnds(l, Swapped(l, s1));
      ReachesOn(l, s, Swapped(l, s1), s');
  }

  lemma StepFirings(l: Limiter, s: System, e: Event)
    requires Inv(l, s)
    ensures Next(l, s, e).firings == s.firings + if e.Fire? && Fires(s) then 1 else 0
  {
  }

  lemma {:induction false} FiringsGrow(l: Limiter, s: System, events: seq<Event>)
    requires Inv(l, s)
    ensures Execute(l, s, events).firings >= s.firings
    decreases |events|
  {
    hide Next;
    if events != [] {
      NextKeeps(l, s, events[0]);
      StepFirings(l, s, events[0]);
      FiringsGrow(l, Next(l, s, events[0]), events[1..]);
    }
  }

  /** A run in which no callback begins is as punctual as one likes. */
  lemma {:induction false} QuietIsPunctual(l: Limiter, s: System, events: seq<Event>, g: nat)
    requires Inv(l, s) && Execute(l, s, events).firings == s.firings
    ensures Punctual(l, s, events, g)
    decreases |events|
  {
    hide Next;
    if events != [] {
      NextKeeps(l, s, events[0]);
      StepFirings(l, s, events[0]);
      var s1 := Next(l, s, events[0]);
      FiringsGrow(l, s1, events[1..]);
      QuietIsPunctual(l, s1, events[1..], g);
    }
  }

  lemma {:induction false} PunctualConcat(l: Limiter, s: System, a: seq<Event>, b: seq<Event>, g: nat)
    requires Inv(l, s) && Punctual(l, s, a, g) && Punctual(l, Execute(l, s, a), b, g)
    ensures Execute(l, s, a + b) == Execute(l, Execute(l, s, a), b) && Punctual(l, s, a + b, g)
    decreases |a|
  {
    hide Next;
    ExecuteConcat(l, s, a, b);
    if a == [] {
      assert a + b == b;
    } else {
      NextKeeps(l, s, a[0]);
      assert (a + b)[1..] == a[1..] + b;
      PunctualConcat(l, Next(l, s, a[0]), a[1..], b, g);
    }
  }

  /** The timer goes off at the moment it is set for. */
  lemma {:induction false} FireOnTime(l: Limiter, s: System, g: nat) returns (events: seq<Event>)
    requires Inv(l, s) && s.timer.Resting? && s.now <= s.armed <= s.fired + g
    ensures Execute(l, s, events) == FiredAt(s, s.armed) && Punctual(l, s, events, g)
  {
    var wait := Elapse(s.armed - s.now);
    var s1 := Next(l, s, wait);
    NextKeeps(l, s, wait);
    NextKeeps(l, s1, Fire);
    assert Next(l, s1, Fire) == FiredAt(s, s.armed);
    events := [wait, Fire];
    assert [Fire][1..] == [] && events[1..] == [Fire];
    assert Execute(l, s1, [Fire]) == FiredAt(s, s.armed) && Punctual(l, s1, [Fire], g);
  }

  /** One turn of the timer: it goes off at its moment, its callback refills and stamps exactly the
      buckets that are due, and it is set for one period later. */
  lemma {:induction false} OneTurn(l: Limiter, s: System, g: nat) returns (events: seq<Event>, s': System)
    requires Inv(l, s) && s.timer.Resting? && s.now <= s.armed <= s.fired + g
    ensures Execute(l, s, events) == s' && Punctual(l, s, events, g) && Inv(l, s')
    ensures s' == Rested(l, FiredAt(s, s.armed)).(cells := s'.cells)
    ensures forall i | 0 <= i < |s.cells| :: s'.cells[i] == Refreshed(l.buckets[i], s.armed, s.cells[i])
  {
    hide Next, Punctual, Due;
    var first := FireOnTime(l, s, g);
    var s1 := FiredAt(s, s.armed);
    s' := ScanToEnd(l, s1);
    var rest :| Execute(l, s1, rest) == s';
    QuietIsPunctual(l, s1, rest, g);
    PunctualConcat(l, s, first, rest, g);
    events := first + rest;
  }

  /** The timer can keep its period for any number of turns: there is a punctual run whose `n`-th
      callback begins exactly `n` periods after the timer was first set. */
  lemma {:induction false} PunctualRun(l: Limiter, n: nat) returns (events: seq<Event>)
    requires Made(l, l.made)
    ensures Inv(l, Initial(l, l.made))
    ensures Punctual(l, Initial(l, l.made), events, PeriodNanos(l))
    ensures var s := Execute(l, Initial(l, l.made), events);
      && s.timer.Resting? && s.firings == n
      && s.now == s.fired == l.made + n * (l.period * 1_000_000)
      && s.armed == l.made + (n + 1) * (l.period * 1_000_000)
  {
    InitialInv(l, l.made);
    var s0 := Initial(l, l.made);
    hide Next, Inv;
    if n == 0 {
      events := [];
    } else {
      var before := PunctualRun(l, n - 1);
      var s := Execute(l, s0, before);
      var turn, s' := OneTurn(l, s, PeriodNanos(l));
      PunctualConcat(l, s0, before, turn, PeriodNanos(l));
      events := before + turn;
      assert (n + 1) * (l.period * 1_000_000) == n * (l.period * 1_000_000) + l.period * 1_000_000;
    }
  }

  /** With the timer on time, the refills of a bucket are at least its interval and less than its
      interval and one period apart. */
  lemma {:induction false} RefillGapsOnTime(l: Limiter, now: nat, events: seq<Event>, e: Event, i: nat)
    requires Made(l, now) && i < |l.buckets|
    ensures Inv(l, Initial(l, now))
    ensures var s := Execute(l, Initial(l, now), events);
      var before, after := s.cells[i].fillTime, Next(l, s, e).cells[i].fillTime;
      && Punctual(l, Initial(l, now), events, l.period * 1_000_000)
      && (l.buckets[i].isGlobal ==> s.firings > 1)
      && after != before
      ==> l.buckets[i].fillInterval * 1_000_000 <= after - before
          < (l.buckets[i].fillInterval + l.period) * 1_000_000
  {
    RefillGaps(l, now, events, e, l.period * 1_000_000, i);
  }

  // ----- A refill that takes tokens away -----

  /** The next swap of the timer would lower the tokens of bucket `i`. */
  ghost predicate Lowers(l: Limiter, s: System, i: nat)
    requires Inv(l, s) && i < |l.buckets|
  {
    Next(l, s, TryFill(false)).cells[i].tokens < s.cells[i].tokens
  }

  lemma FillOfFullBucket(l: Limiter, i: nat) returns (s': System)
    requires Made(l, l.made) && i < |l.buckets|
    ensures Inv(l, Initial(l, l.made)) && Reaches(l, Initial(l, l.made), s') && Inv(l, s')
    ensures s'.timer.Filling? && s'.timer.at == i
    ensures s'.cells[i] == FullCell(l.buckets[i]) && s'.timer.expected == s'.cells[i].tokens
  {
    InitialInv(l, l.made);
    var s0 := Initial(l, l.made);
    var b := l.buckets[i];
    var t := l.made + PeriodNanos(l) + Wait(b);
    WaitAndFire(l, s0, t);
    var s1 := FiredAt(s0, t);
    var s2 := PassMany(l, s1, i);
    assert s2.cells[i] == FullCell(b);
    DueInNanos(b, t, s2.cells[i].fillTime);
    Load(l, s2);
    s' := Loaded(s2);
    ReachesOn(l, s0, s1, s2);
    ReachesOn(l, s0, s2, s');
  }

  /** Some run refills a bucket to fewer tokens than it had if and only if its maximum and its fill
      together do not fit in 32 bits. */
  lemma RefillCanLowerIff(l: Limiter, i: nat)
    requires Made(l, l.made) && i < |l.buckets|
    ensures Inv(l, Initial(l, l.made))
    ensures (exists s :: Reaches(l, Initial(l, l.made), s) && Inv(l, s) && Lowers(l, s, i))
            <==> l.buckets[i].maxTokens + l.buckets[i].tokensPerFill >= 0x1_0000_0000
  {
    var b := l.buckets[i];
    var s' := FillOfFullBucket(l, i);
    RefillLowersIffItWraps(b, b.maxTokens);
    forall s | Inv(l, s) && Lowers(l, s, i)
      ensures b.maxTokens + b.tokensPerFill >= 0x1_0000_0000
    {
      assert Balanced(b, s.cells[i]);
      RefillLowersIffItWraps(b, s.cells[i].tokens);
    }
    if b.maxTokens + b.tokensPerFill >= 0x1_0000_0000 {
      assert Lowers(l, s', i);
    }
  }

  /** A full bucket of the largest size with fills of one token is emptied by its first fill. */
  lemma FullBucketIsEmptied(interval: nat, born: nat)
    requires interval > 0
    ensures var l := Limiter([Bucket(0xffff_ffff, 1, interval, born, false)], false, born, interval);
      && Made(l, l.made)
      && Inv(l, Initial(l, l.made))
      && exists s :: Reaches(l, Initial(l, l.made), s) && s.cells[0].tokens == 0 && s.cells[0].admitted == 0
  {
    var l := Limiter([Bucket(0xffff_ffff, 1, interval, born, false)], false, born, interval);
    var s := FillOfFullBucket(l, 0);
    Swap(l, s);
    var s' := Swapped(l, s);
    ReachesOn(l, Initial(l, l.made), s, s');
    assert s'.cells[0].tokens == 0 && s'.cells[0].admitted == 0;
  }
}
