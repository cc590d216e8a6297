/** The local rate limiter: token buckets that worker threads draw from and a timer refills,
    all by compare-and-swap loops.  Every load, every compare-and-swap (which may fail
    spuriously) and every reading of the clock is a step of its own. */
module RateLimiter {
  import opened Bytes

  const NANOS_PER_MILLI: nat := 1_000_000

  /** `fillInterval` is in milliseconds; `born` is the clock when the bucket was made, in
      nanoseconds.  The fallback bucket for the whole service starts with a fill time of
      zero, the clock's epoch; the others start with `born`. */
  datatype Bucket = Bucket(maxTokens: u32, tokensPerFill: u32, fillInterval: nat, born: nat, isGlobal: bool)

  /** A bucket's shared fields, and a record of what has happened to it: requests admitted,
      refills made, and the net number of tokens the refills put in. */
  datatype Cell = Cell(tokens: u32, fillTime: nat, admitted: nat, refills: nat, added: int)

  /** A worker inside the admission loop on one bucket; `seen` is how often that bucket had
      been changed when `expected` was loaded. */
  datatype Worker = Idle | Trying(bucket: nat, expected: u32, seen: nat)

  /** The refill timer's callback: going through the buckets with the clock it read first. */
  datatype Timer =
    | Resting
    | Scanning(current: nat, at: nat)
    | Filling(current: nat, at: nat, expected: u32, seen: nat)
    | Stamping(current: nat, at: nat)

  /** `armed` is the moment the timer is set for; `fired` is when its callback last began (the
      moment the timer was first set, if it never did) and `firings` how often it has. */
  datatype System = System(now: nat, cells: seq<Cell>, workers: map<nat, Worker>, timer: Timer, unmetered: nat,
                           armed: nat, fired: nat, firings: nat)

  datatype Event =
    | Elapse(nanos: nat)
    | Request(worker: nat, matches: seq<bool>)
    | Refuse(worker: nat)
    | TryTake(worker: nat, spurious: bool)
    | Fire
    | Scan
    | TryFill(spurious: bool)
    | Stamp

  /** The fallback bucket, if there is one, comes first; then the conditions in order.  The timer,
      of `period` milliseconds, was first set when the clock stood at `made`. */
  datatype Limiter = Limiter(buckets: seq<Bucket>, hasGlobal: bool, made: nat, period: nat)

  predicate ValidLimiter(l: Limiter) {
    && (l.hasGlobal ==> l.buckets != [] && l.buckets[0].born == l.made)
    && (forall i | 0 <= i < |l.buckets| :: l.buckets[i].isGlobal <==> l.hasGlobal && i == 0)
    && (forall i | 0 <= i < |l.buckets| :: l.made <= l.buckets[i].born)
  }

  function PeriodNanos(l: Limiter): (n: nat) { l.period * NANOS_PER_MILLI }

  function Conditions(l: Limiter): (s: seq<Bucket>)
    requires ValidLimiter(l)
  {
    if l.hasGlobal then l.buckets[1..] else l.buckets
  }

  datatype Choice = Meter(bucket: nat) | NoMeter

  /** The first condition from `start` on that matches; the number of conditions if none does. */
  function FirstMatch(matches: seq<bool>, start: nat): (i: nat)
    requires start <= |matches|
    ensures start <= i <= |matches|
    ensures forall j | start <= j < i :: !matches[j]
    ensures i < |matches| ==> matches[i]
    decreases |matches| - start
  {
    if start == |matches| || matches[start] then start else FirstMatch(matches, start + 1)
  }

  /** The first matching condition's bucket, else the fallback bucket, else none. */
  function Choose(l: Limiter, matches: seq<bool>): (c: Choice)
    requires ValidLimiter(l)
    requires |matches| == |Conditions(l)|
    ensures c.Meter? ==> c.bucket < |l.buckets|
    ensures c.Meter? && !l.buckets[c.bucket].isGlobal ==>
      var i := if l.hasGlobal then c.bucket - 1 else c.bucket;
      matches[i] && forall j | 0 <= j < i :: !matches[j]
    ensures c.NoMeter? || l.buckets[c.bucket].isGlobal <==> forall j | 0 <= j < |matches| :: !matches[j]
    ensures c.NoMeter? ==> !l.hasGlobal
  {
    var i := FirstMatch(matches, 0);
    if i < |matches| then Meter(if l.hasGlobal then i + 1 else i)
    else if l.hasGlobal then Meter(0) else NoMeter
  }

  /** Tokens after a refill, in 32-bit unsigned arithmetic. */
  function Refilled(b: Bucket, tokens: u32): (r: u32)
    ensures r <= b.maxTokens
    ensures r <= tokens + b.tokensPerFill
    ensures tokens + b.tokensPerFill < 0x1_0000_0000 ==> r == b.maxTokens || r == tokens + b.tokensPerFill
  {
    var sum := (tokens + b.tokensPerFill) % 0x1_0000_0000;
    if b.maxTokens < sum then b.maxTokens else sum
  }

  /** A refill takes tokens away exactly when the sum does not fit in 32 bits. */
  lemma RefillLowersIffItWraps(b: Bucket, tokens: u32)
    requires tokens <= b.maxTokens
    ensures Refilled(b, tokens) < tokens <==> tokens + b.tokensPerFill >= 0x1_0000_0000
  {
    var sum := tokens + b.tokensPerFill;
    if sum >= 0x1_0000_0000 {
      assert sum % 0x1_0000_0000 == sum - 0x1_0000_0000;
    }
  }

  function Elapsed(current: nat, since: nat): (millis: nat)
    requires since <= current
  {
    (current - since) / NANOS_PER_MILLI
  }

  predicate Due(b: Bucket, current: nat, since: nat)
    requires since <= current
  {
    Elapsed(current, since) >= b.fillInterval
  }

  function Changes(c: Cell): (n: nat) { c.admitted + c.refills }

  /** The timer goes off when it is set and its moment has come. */
  predicate Fires(s: System) { s.timer.Resting? && s.armed <= s.now }

  /** One step; a step that is not enabled changes nothing. */
  function Next(l: Limiter, s: System, e: Event): (s': System)
    requires ValidLimiter(l) && |s.cells| == |l.buckets|
    requires Shaped(l, s)
    ensures |s'.cells| == |l.buckets|
  {
    match e
    case Elapse(nanos) => s.(now := s.now + nanos)
    case Request(w, matches) =>
      if (w in s.workers && s.workers[w] != Idle) || |matches| != |Conditions(l)| then s
      else (
        match Choose(l, matches)
        case NoMeter => s.(unmetered := s.unmetered + 1)
        case Meter(i) => s.(workers := s.workers[w := Trying(i, s.cells[i].tokens, Changes(s.cells[i]))])
      )
    case Refuse(w) =>
      if w in s.workers && s.workers[w].Trying? && s.workers[w].expected == 0
      then s.(workers := s.workers[w := Idle]) else s
    case TryTake(w, spurious) =>
      if w in s.workers && s.workers[w].Trying? && s.workers[w].expected > 0 then
        var t := s.workers[w];
        var c := s.cells[t.bucket];
        if c.tokens == t.expected && !spurious
        then s.(workers := s.workers[w := Idle],
                cells := s.cells[t.bucket := c.(tokens := t.expected - 1, admitted := c.admitted + 1)])
        else s.(workers := s.workers[w := Trying(t.bucket, c.tokens, Changes(c))])
      else s
    case Fire =>
      if Fires(s) then s.(timer := Scanning(s.now, 0), fired := s.now, firings := s.firings + 1) else s
    case Scan =>
      if !s.timer.Scanning? then s
      else if s.timer.at == |l.buckets| then s.(timer := Resting, armed := s.now + PeriodNanos(l))
      else
        var i, current := s.timer.at, s.timer.current;
        if Due(l.buckets[i], current, s.cells[i].fillTime)
        then s.(timer := Filling(current, i, s.cells[i].tokens, Changes(s.cells[i])))
        else s.(timer := Scanning(current, i + 1))
    case TryFill(spurious) =>
      if !s.timer.Filling? then s
      else
        var i, c := s.timer.at, s.cells[s.timer.at];
        if c.tokens == s.timer.expected && !spurious
        then
          var t := Refilled(l.buckets[i], s.timer.expected);
          s.(timer := Stamping(s.timer.current, i),
             cells := s.cells[i := c.(tokens := t, refills := c.refills + 1, added := c.added + t - c.tokens)])
        else s.(timer := Filling(s.timer.current, i, c.tokens, Changes(c)))
    case Stamp =>
      if !s.timer.Stamping? then s
      else s.(timer := Scanning(s.timer.current, s.timer.at + 1),
              cells := s.cells[s.timer.at := s.cells[s.timer.at].(fillTime := s.timer.current)])
  }

  /** The latest moment anything in the buckets refers to. */
  function Horizon(s: System): (t: nat) { if s.timer.Resting? then s.now else s.timer.current }

  /** Indices point at buckets, and times do not run ahead of the clock. */
  predicate Shaped(l: Limiter, s: System) {
    && |s.cells| == |l.buckets|
    && Horizon(s) <= s.now
    && (forall i | 0 <= i < |s.cells| :: s.cells[i].fillTime <= Horizon(s) && l.buckets[i].born <= Horizon(s))
    && (s.timer.Scanning? ==> s.timer.at <= |l.buckets|)
    && (s.timer.Filling? || s.timer.Stamping? ==> s.timer.at < |l.buckets|)
    && (forall w | w in s.workers && s.workers[w].Trying? :: s.workers[w].bucket < |l.buckets|)
    && Timed(l, s)
  }

  /** The callback begins no earlier than a period after the timer was set, and the timer is never
      set for a moment more than a period away. */
  predicate Timed(l: Limiter, s: System) {
    && l.made <= s.fired <= s.now
    && (!s.timer.Resting? ==> s.timer.current == s.fired && s.firings > 0)
    && (s.timer.Resting? ==> s.fired + PeriodNanos(l) <= s.armed <= s.now + PeriodNanos(l))
    && (s.firings > 0 ==> l.made + PeriodNanos(l) <= s.fired)
  }

  /** The fill time of bucket `i`, counting one that is about to be written. */
  function StampOf(s: System, i: nat): (t: nat)
    requires i < |s.cells|
  {
    if s.timer.Stamping? && s.timer.at == i then s.timer.current else s.cells[i].fillTime
  }

  /** The fallback bucket has one fill to spare if the timer goes off before its interval ends,
      unless it was made at the epoch. */
  function ExtraFills(l: Limiter, b: Bucket): (n: nat) {
    if b.isGlobal && l.period < b.fillInterval && b.born > 0 then 1 else 0
  }

  /** The accounts of one bucket. */
  ghost predicate Balanced(b: Bucket, c: Cell) {
    && c.tokens <= b.maxTokens
    && c.tokens + c.admitted == b.maxTokens + c.added
    && c.added <= c.refills * b.tokensPerFill
    && (b.maxTokens + b.tokensPerFill < 0x1_0000_0000 ==> c.added >= 0)
    && (b.maxTokens == 0 ==> c.added == 0)
  }

  /** Refills are at least one interval apart. */
  ghost predicate Paced(l: Limiter, b: Bucket, refills: nat, stamp: nat) {
    if refills == 0 then stamp == (if b.isGlobal then 0 else b.born)
    else b.born <= stamp && (refills - ExtraFills(l, b)) * b.fillInterval * NANOS_PER_MILLI <= stamp - b.born
  }

  /** The bucket that the timer is refilling is due, until its fill time is written. */
  ghost predicate FillIsDue(l: Limiter, s: System)
    requires Shaped(l, s)
  {
    s.timer.Filling? || s.timer.Stamping? ==> Due(l.buckets[s.timer.at], s.timer.current, s.cells[s.timer.at].fillTime)
  }

  /** A value loaded and not overtaken by a change is still the current one. */
  ghost predicate FreshUnlessOvertaken(s: System)
    requires forall w | w in s.workers && s.workers[w].Trying? :: s.workers[w].bucket < |s.cells|
    requires s.timer.Filling? ==> s.timer.at < |s.cells|
  {
    && (forall w | w in s.workers && s.workers[w].Trying? ::
          Fresh(s.cells[s.workers[w].bucket], s.workers[w].expected, s.workers[w].seen))
    && (s.timer.Filling? ==> Fresh(s.cells[s.timer.at], s.timer.expected, s.timer.seen))
  }

  predicate Fresh(c: Cell, expected: u32, seen: nat) {
    seen <= Changes(c) && (seen == Changes(c) ==> c.tokens == expected)
  }

  ghost predicate Inv(l: Limiter, s: System) {
    && ValidLimiter(l)
    && Shaped(l, s)
    && FillIsDue(l, s)
    && FreshUnlessOvertaken(s)
    && (l.hasGlobal ==> s.unmetered == 0)
    && (forall i | 0 <= i < |s.cells| :: Balanced(l.buckets[i], s.cells[i]))
    && (forall i | 0 <= i < |s.cells| :: Paced(l, l.buckets[i], s.cells[i].refills, StampOf(s, i)))
  }

  /** A limiter just made at time `now`. */
  function Initial(l: Limiter, now: nat): (s: System) {
    System(now, seq(|l.buckets|, i requires 0 <= i < |l.buckets| => FullCell(l.buckets[i])), map[], Resting, 0,
           l.made + PeriodNanos(l), l.made, 0)
  }

  function FullCell(b: Bucket): (c: Cell) { Cell(b.maxTokens, if b.isGlobal then 0 else b.born, 0, 0, 0) }

  lemma InitialInv(l: Limiter, now: nat)
    requires ValidLimiter(l) && l.made <= now
    requires forall i | 0 <= i < |l.buckets| :: l.buckets[i].born <= now
    ensures Inv(l, Initial(l, now))
  {
  }

  // ----- Every step keeps the invariant -----

  lemma PaceOnce(l: Limiter, b: Bucket, refills: nat, stamp: nat, current: nat)
    requires stamp <= current && b.born <= current
    requires b.isGlobal ==> b.born + PeriodNanos(l) <= current
    requires Paced(l, b, refills, stamp)
    requires Due(b, current, stamp)
    ensures Paced(l, b, refills + 1, current)
  {
    var gap := b.fillInterval * NANOS_PER_MILLI;
    DueInNanos(b, current, stamp);
    var k := refills - ExtraFills(l, b);
    if refills == 0 {
      if b.isGlobal {
        FirstGlobalFill(l, b, current);
      } else {
        assert (1 - 0) * b.fillInterval * NANOS_PER_MILLI == gap;
      }
    } else {
      assert (k + 1) * b.fillInterval * NANOS_PER_MILLI == k * b.fillInterval * NANOS_PER_MILLI + gap;
      assert refills + 1 - ExtraFills(l, b) == k + 1;
    }
  }

  lemma FirstGlobalFill(l: Limiter, b: Bucket, current: nat)
    requires b.isGlobal && b.born + PeriodNanos(l) <= current && Due(b, current, 0)
    ensures (1 - ExtraFills(l, b)) * b.fillInterval * NANOS_PER_MILLI <= current - b.born
  {
    DueInNanos(b, current, 0);
    if l.period < b.fillInterval && b.born > 0 {
      assert (1 - 1) * b.fillInterval * NANOS_PER_MILLI == 0;
    } else {
      assert (1 - 0) * b.fillInterval * NANOS_PER_MILLI == b.fillInterval * NANOS_PER_MILLI;
    }
  }

  lemma DueInNanos(b: Bucket, current: nat, since: nat)
    requires since <= current
    ensures Due(b, current, since) <==> current - since >= b.fillInterval * NANOS_PER_MILLI
  {
    var ms := (current - since) / NANOS_PER_MILLI;
    assert ms * NANOS_PER_MILLI <= current - since < (ms + 1) * NANOS_PER_MILLI;
    if ms >= b.fillInterval {
      assert ms * NANOS_PER_MILLI >= b.fillInterval * NANOS_PER_MILLI;
    } else {
      assert (ms + 1) * NANOS_PER_MILLI <= b.fillInterval * NANOS_PER_MILLI;
    }
  }

  lemma TakeBalanced(b: Bucket, c: Cell)
    requires Balanced(b, c) && c.tokens > 0
    ensures Balanced(b, c.(tokens := c.tokens - 1, admitted := c.admitted + 1))
  {
  }

  lemma FillBalanced(b: Bucket, c: Cell)
    requires Balanced(b, c)
    ensures var t := Refilled(b, c.tokens);
      Balanced(b, c.(tokens := t, refills := c.refills + 1, added := c.added + t - c.tokens))
  {
    RefillLowersIffItWraps(b, c.tokens);
    assert (c.refills + 1) * b.tokensPerFill == c.refills * b.tokensPerFill + b.tokensPerFill;
  }

  lemma {:induction false} TakeShaped(l: Limiter, s: System, w: nat, spurious: bool)
    requires Inv(l, s)
    ensures Shaped(l, Next(l, s, TryTake(w, spurious)))
  {
    hide Balanced, Paced, Due, StampOf, FreshUnlessOvertaken;
  }

  lemma {:induction false} TakeKeeps(l: Limiter, s: System, w: nat, spurious: bool)
    requires Inv(l, s)
    ensures Inv(l, Next(l, s, TryTake(w, spurious)))
  {
    hide Balanced, Paced, Due, Timed;
    TakeShaped(l, s, w, spurious);
    if w in s.workers && s.workers[w].Trying? && s.workers[w].expected > 0 {
      var i := s.workers[w].bucket;
      if s.cells[i].tokens > 0 { TakeBalanced(l.buckets[i], s.cells[i]); }
    }
  }

  lemma {:induction false} FillKeeps(l: Limiter, s: System, spurious: bool)
    requires Inv(l, s)
    ensures Inv(l, Next(l, s, TryFill(spurious)))
  {
    hide Balanced, Paced, Due, Refilled;
    if s.timer.Filling? {
      var i := s.timer.at;
      FillBalanced(l.buckets[i], s.cells[i]);
      PaceOnce(l, l.buckets[i], s.cells[i].refills, s.cells[i].fillTime, s.timer.current);
    }
  }

  lemma StampKeeps(l: Limiter, s: System)
    requires Inv(l, s)
    ensures Inv(l, Next(l, s, Stamp))
  {
  }

  lemma {:induction false} RequestKeeps(l: Limiter, s: System, w: nat, matches: seq<bool>)
    requires Inv(l, s)
    ensures Inv(l, Next(l, s, Request(w, matches)))
  {
    hide Balanced, Paced, Due, Choose;
  }

  lemma NextKeeps(l: Limiter, s: System, e: Event)
    requires Inv(l, s)
    ensures Inv(l, Next(l, s, e))
  {
    match e
    case Elapse(_) =>
    case Request(w, matches) => RequestKeeps(l, s, w, matches);
    case Refuse(w) =>
    case TryTake(w, spurious) => TakeKeeps(l, s, w, spurious);
    case Fire =>
    case Scan =>
    case TryFill(spurious) => FillKeeps(l, s, spurious);
    case Stamp => StampKeeps(l, s);
  }

  // ----- Whole runs -----

  /** Any interleaving of any number of workers, the timer and the passage of time. */
  function Execute(l: Limiter, s: System, events: seq<Event>): (s': System)
    requires Inv(l, s)
    ensures Inv(l, s')
    decreases |events|
  {
    if events == [] then s
    else
      NextKeeps(l, s, events[0]);
      Execute(l, Next(l, s, events[0]), events[1..])
  }

  /** Token safety: a bucket never holds more than its maximum, and what it holds is its
      maximum plus what refills put in minus what requests took out.  When maximum and refill
      fit in 32 bits together, no refill ever takes tokens away. */
  lemma TokensAreConserved(l: Limiter, s: System, events: seq<Event>, i: nat)
    requires Inv(l, s)
    requires i < |l.buckets|
    ensures var c, b := Execute(l, s, events).cells[i], l.buckets[i];
      && c.tokens <= b.maxTokens
      && c.tokens == b.maxTokens + c.added - c.admitted
      && (b.maxTokens + b.tokensPerFill < 0x1_0000_0000 ==> 0 <= c.added)
  {
    assert Balanced(l.buckets[i], Execute(l, s, events).cells[i]);
  }

  lemma QuotientAtLeast(k: nat, d: nat, n: nat)
    requires d > 0 && k * d <= n
    ensures k <= n / d
  {
    QuotientBound(n, d);
    CancelFactor(k, n / d + 1, d);
  }

  lemma QuotientBound(n: nat, d: nat)
    requires d > 0
    ensures n < (n / d + 1) * d
  {
    var q := n / d;
    assert n == q * d + n % d;
    assert (q + 1) * d == q * d + d;
  }

  lemma {:induction false} CancelFactor(k: nat, m: nat, d: nat)
    requires k * d < m * d
    ensures k < m
  {
    if k > 0 && m > 0 {
      assert k * d == (k - 1) * d + d && m * d == (m - 1) * d + d;
      CancelFactor(k - 1, m - 1, d);
    }
  }

  lemma FillsInTime(k: nat, interval: nat, span: nat)
    requires interval > 0
    requires k * interval * NANOS_PER_MILLI <= span
    ensures k <= span / NANOS_PER_MILLI / interval
  {
    QuotientAtLeast(k * interval, NANOS_PER_MILLI, span);
    QuotientAtLeast(k, interval, span / NANOS_PER_MILLI);
  }

  lemma ScaleUp(m: nat, n: nat, k: nat)
    requires m <= n
    ensures m * k <= k * n
  {
  }

  lemma RefillsInTime(l: Limiter, b: Bucket, refills: nat, stamp: nat, now: nat)
    requires Paced(l, b, refills, stamp)
    requires stamp <= now && b.born <= now
    requires b.fillInterval > 0
    ensures refills <= ExtraFills(l, b) + Elapsed(now, b.born) / b.fillInterval
  {
    if refills > ExtraFills(l, b) {
      FillsInTime(refills - ExtraFills(l, b), b.fillInterval, now - b.born);
    }
  }

  lemma CellIsBounded(l: Limiter, b: Bucket, c: Cell, stamp: nat, now: nat)
    requires Balanced(b, c) && Paced(l, b, c.refills, stamp)
    requires stamp <= now && b.born <= now
    requires b.fillInterval > 0
    ensures c.admitted <= b.maxTokens + b.tokensPerFill * (ExtraFills(l, b) + Elapsed(now, b.born) / b.fillInterval)
  {
    var fills := ExtraFills(l, b) + Elapsed(now, b.born) / b.fillInterval;
    RefillsInTime(l, b, c.refills, stamp, now);
    ScaleUp(c.refills, fills, b.tokensPerFill);
  }

  /** Rate bound: whatever the interleaving, by now a bucket has admitted at most its maximum
      plus one fill per full interval since it was made, plus one more fill if it is the
      fallback bucket and the timer is faster than its interval. */
  lemma AdmissionsAreBounded(l: Limiter, s: System, events: seq<Event>, i: nat)
    requires Inv(l, s)
    requires i < |l.buckets| && l.buckets[i].fillInterval > 0
    ensures var s' := Execute(l, s, events);
      var b := l.buckets[i];
      && b.born <= s'.now
      && s'.cells[i].admitted
         <= b.maxTokens + b.tokensPerFill * (ExtraFills(l, b) + Elapsed(s'.now, b.born) / b.fillInterval)
  {
    var s' := Execute(l, s, events);
    assert Paced(l, l.buckets[i], s'.cells[i].refills, StampOf(s', i)) && Balanced(l.buckets[i], s'.cells[i]);
    CellIsBounded(l, l.buckets[i], s'.cells[i], StampOf(s', i), s'.now);
  }

  /** Lock freedom: in every reachable state, a compare-and-swap that fails for any other
      reason than a spurious one does so because some other worker or the timer has completed
      a change of that bucket since the value was loaded. */
  lemma FailureMeansProgress(l: Limiter, s: System, events: seq<Event>, w: nat)
    requires Inv(l, s)
    ensures var s' := Execute(l, s, events);
      w in s'.workers && s'.workers[w].Trying? && s'.workers[w].expected > 0
      && Next(l, s', TryTake(w, false)).workers[w].Trying?
      ==> Changes(s'.cells[s'.workers[w].bucket]) > s'.workers[w].seen
  {
    var s' := Execute(l, s, events);
    if w in s'.workers && s'.workers[w].Trying? {
      assert Fresh(s'.cells[s'.workers[w].bucket], s'.workers[w].expected, s'.workers[w].seen);
    }
  }

  /** A request is refused only if its bucket is empty, or was when last looked at and has been
      changed since. */
  lemma RefusalMeansEmpty(l: Limiter, s: System, events: seq<Event>, w: nat)
    requires Inv(l, s)
    ensures var s' := Execute(l, s, events);
      w in s'.workers && s'.workers[w].Trying? && Next(l, s', Refuse(w)).workers[w] == Idle
      ==> var c := s'.cells[s'.workers[w].bucket]; c.tokens == 0 || Changes(c) > s'.workers[w].seen
  {
    var s' := Execute(l, s, events);
    if w in s'.workers && s'.workers[w].Trying? {
      assert Fresh(s'.cells[s'.workers[w].bucket], s'.workers[w].expected, s'.workers[w].seen);
    }
  }
}

/** Choosing the timer period when a limiter is made. */
module RefillSchedule {
  import opened Wrappers

  const MIN_PERIOD: nat := 50

  function Min(x: nat, y: nat): (m: nat) { if y < x then y else x }

  function Smallest(xs: seq<nat>): (m: nat)
    requires xs != []
  {
    var last := xs[|xs| - 1];
    if |xs| == 1 then last else Min(Smallest(xs[..|xs| - 1]), last)
  }

  lemma {:induction false} SmallestIsLeast(xs: seq<nat>)
    requires xs != []
    ensures Smallest(xs) in xs && forall i | 0 <= i < |xs| :: Smallest(xs) <= xs[i]
  {
    if |xs| > 1 {
      SmallestIsLeast(xs[..|xs| - 1]);
    }
  }

  /** The entries after the last zero. */
  function AfterLastZero(xs: seq<nat>): (s: seq<nat>) {
    if xs == [] || xs[|xs| - 1] == 0 then []
    else AfterLastZero(xs[..|xs| - 1]) + [xs[|xs| - 1]]
  }

  lemma AfterSnoc(xs: seq<nat>, x: nat)
    ensures AfterLastZero(xs + [x]) == if x == 0 then [] else AfterLastZero(xs) + [x]
  {
    assert (xs + [x])[..|xs|] == xs;
  }

  lemma {:induction false} NoZeroAfterLastZero(xs: seq<nat>)
    ensures 0 !in AfterLastZero(xs)
    ensures |AfterLastZero(xs)| <= |xs| && AfterLastZero(xs) == xs[|xs| - |AfterLastZero(xs)|..]
    ensures AfterLastZero(xs) == xs || xs[|xs| - |AfterLastZero(xs)| - 1] == 0
  {
    if xs != [] && xs[|xs| - 1] != 0 {
      NoZeroAfterLastZero(xs[..|xs| - 1]);
    }
  }

  /** The period for the interval of the fallback bucket (0 if there is none) followed by the
      intervals of the conditions: the smallest entry after the last zero. */
  function Period(xs: seq<nat>): (t: nat) {
    if AfterLastZero(xs) == [] then 0 else Smallest(AfterLastZero(xs))
  }

  /** What one turn of the loop does to the period. */
  lemma PeriodSnoc(xs: seq<nat>, x: nat)
    ensures Period(xs + [x]) == if Period(xs) == 0 || x < Period(xs) then x else Period(xs)
  {
    AfterSnoc(xs, x);
    var tail := AfterLastZero(xs);
    if tail != [] {
      NoZeroAfterLastZero(xs);
      SmallestIsLeast(tail);
      assert (tail + [x])[..|tail|] == tail;
    }
  }

  /** The constructor's choice of a period; `None` is its exception. */
  method ChoosePeriod(global: nat, conditions: seq<nat>) returns (r: Option<nat>)
    ensures r == if Period([global] + conditions) < 50 then None else Some(Period([global] + conditions))
  {
    var period := global;
    PeriodSnoc([], global);
    assert [] + [global] == [global] && [global] + conditions[..0] == [global];
    var i := 0;
    while i < |conditions|
      invariant 0 <= i <= |conditions|
      invariant period == Period([global] + conditions[..i])
    {
      PeriodSnoc([global] + conditions[..i], conditions[i]);
      assert [global] + conditions[..i + 1] == [global] + conditions[..i] + [conditions[i]];
      if period == 0 || conditions[i] < period {
        period := conditions[i];
      }
      i := i + 1;
    }
    assert conditions[..|conditions|] == conditions;
    if period < MIN_PERIOD {
      return None;
    }
    return Some(period);
  }

  /** With positive intervals, a limiter can be made exactly when it has a bucket and its
      smallest interval is at least 50 ms, and that interval is the period. */
  lemma PeriodOfPositiveIntervals(global: nat, conditions: seq<nat>)
    requires 0 !in conditions
    ensures var buckets := if global == 0 then conditions else [global] + conditions;
      Period([global] + conditions) == if buckets == [] then 0 else Smallest(buckets)
  {
    PositiveTail([global], conditions);
    AfterSnoc([], global);
    assert [] + [global] == [global] && [] + conditions == conditions;
  }

  lemma {:induction false} PositiveTail(xs: seq<nat>, ys: seq<nat>)
    requires 0 !in ys
    ensures AfterLastZero(xs + ys) == AfterLastZero(xs) + ys
    decreases |ys|
  {
    if ys == [] {
      assert xs + ys == xs;
    } else {
      var front, y := ys[..|ys| - 1], ys[|ys| - 1];
      assert ys == front + [y];
      assert xs + ys == (xs + front) + [y];
      assert y in ys;
      assert forall z | z in front :: z in ys;
      PositiveTail(xs, front);
      AfterSnoc(xs + front, y);
    }
  }

  /** A condition without an interval is let through when a later one has a valid interval,
      and rejected in the other order. */
  lemma ZeroIntervalDependsOnOrder(interval: nat)
    requires interval >= MIN_PERIOD
    ensures Period([0, 0, interval]) == interval && Period([0, interval, 0]) == 0
  {
    assert [0, 0, interval] == [0, 0] + [interval];
    assert [0, interval, 0] == [0, interval] + [0];
    AfterSnoc([0, 0], interval);
    AfterSnoc([0, interval], 0);
  }

  /** With positive intervals, the period is no shorter than the interval of the fallback bucket
      exactly when no condition has a shorter one. */
  lemma GlobalSetsPeriodIff(global: nat, conditions: seq<nat>)
    requires global > 0 && 0 !in conditions
    ensures global <= Period([global] + conditions) <==> forall i | 0 <= i < |conditions| :: global <= conditions[i]
  {
    PeriodOfPositiveIntervals(global, conditions);
    var all := [global] + conditions;
    SmallestIsLeast(all);
    assert all[0] == global && forall i | 0 <= i < |conditions| :: all[i + 1] == conditions[i];
  }
}
