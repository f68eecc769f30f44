/**
  The event generator and the rate limiters that draw on it: a producer posts
  events at a fixed rate, consumers take them under one lock.  Machine widths
  are explicit: times and the queue are 64-bit unsigned, the rate and the count
  per wake-up are 32-bit signed, a limiter's bucket is 64-bit signed.
*/
module EventGen {
  import opened Arith

  const NSEC: nat := 1_000_000_000
  const MB: nat := 1_048_576
  const W64 := 0x1_0000_0000_0000_0000
  const HALF32 := 0x8000_0000
  const HALF64 := 0x8000_0000_0000_0000

  function Signed32(x: int): int {
    var y := x % W32;
    if y < HALF32 then y else y - W32
  }

  function Signed64(x: int): int {
    var y := x % W64;
    if y < HALF64 then y else y - W64
  }

  // -------------------------------------------------------------- producer

  /** The events due after `delta` nanoseconds, as the generator computes them. */
  function Count(rate: nat, delta: nat): int {
    Signed32((rate * delta) % W64 / NSEC)
  }

  /** The five-second depth, `5 * rate` in 32 bits compared as unsigned 64. */
  function Cap(rate: nat): nat {
    Signed32(5 * rate) % W64
  }

  function Post(rate: nat, q: nat, delta: nat): nat {
    if q < Cap(rate) then (q + Count(rate, delta)) % W64 else q
  }

  /** What is due, without any overflow. */
  function Due(rate: nat, delta: nat): nat {
    rate * delta / NSEC
  }

  /** The computed count is exact iff fewer than 2^31 events are due. */
  lemma CountExact(rate: nat, delta: nat)
    ensures Count(rate, delta) == Due(rate, delta) <==> Due(rate, delta) < HALF32
  {
    var p := rate * delta;
    if p / NSEC < HALF32 {
      assert p % W64 == p;
    }
  }

  lemma CapExact(rate: nat)
    requires 0 < rate < HALF32
    ensures Cap(rate) == 5 * rate <==> 5 * rate < HALF32
  {
  }

  /**
    A wake-up that keeps within what is due: the queue is full, or it absorbs a
    count that came out negative, or so much is due that even the wrapped queue
    is within it.
  */
  predicate SafeWake(rate: nat, q: nat, delta: nat) {
    q >= Cap(rate) || q + Count(rate, delta) >= 0 || W64 + Count(rate, delta) <= Due(rate, delta)
  }

  lemma CountBounds(rate: nat, delta: nat)
    ensures -HALF32 <= Count(rate, delta) < HALF32 && Count(rate, delta) <= Due(rate, delta)
  {
    var p := rate * delta;
    Shrinks(p, W64);
    Shrinks(p % W64 / NSEC, W32);
    DivMono(p % W64, p);
  }

  lemma Shrinks(x: nat, m: nat)
    requires m > 0
    ensures 0 <= x % m <= x
  {
  }

  lemma DivMono(x: nat, y: nat)
    requires x <= y
    ensures x / NSEC <= y / NSEC
  {
  }

  /** What the queue is after a post, with the wrap-around of its 64 bits spelt out. */
  lemma Posted(rate: nat, q: nat, delta: nat)
    ensures q < Cap(rate) && q + Count(rate, delta) >= 0 ==> Post(rate, q, delta) <= q + Count(rate, delta)
    ensures q < Cap(rate) && q + Count(rate, delta) < 0 ==> Post(rate, q, delta) == W64 + q + Count(rate, delta)
    ensures q < Cap(rate) && 0 <= q + Count(rate, delta) < W64 ==> Post(rate, q, delta) == q + Count(rate, delta)
  {
    CountBounds(rate, delta);
    if q + Count(rate, delta) >= 0 {
      Shrinks(q + Count(rate, delta), W64);
    }
  }

  /** Nothing is posted to a full queue. */
  lemma FullQueue(rate: nat, q: nat, delta: nat)
    ensures q >= Cap(rate) ==> Post(rate, q, delta) == q
    ensures q < Cap(rate) && 0 <= q + Count(rate, delta) < W64 ==> Post(rate, q, delta) == q + Count(rate, delta)
  {
    Posted(rate, q, delta);
  }

  /** A post adds at most what is due if and only if the wake-up is safe. */
  lemma PostWithinIff(rate: nat, q: nat, delta: nat)
    ensures Post(rate, q, delta) <= q + Due(rate, delta) <==> SafeWake(rate, q, delta)
  {
    hide Count, Cap, Due;
    CountBounds(rate, delta);
    Posted(rate, q, delta);
  }

  /** A hundred million events a second and a sleep of 21.5 seconds: the count is -2^31 and the queue overflows. */
  lemma NegativeCount()
    ensures Due(100_000_000, 21_474_836_480) == HALF32 && Count(100_000_000, 21_474_836_480) == -HALF32
    ensures Post(100_000_000, 0, 21_474_836_480) == W64 - HALF32
  {
  }

  /**
    After a wake-up at most five seconds of events are queued if and only if no
    more were queued and none are posted, or the count just fits in, or the
    queue wraps around at 2^64.
  */
  lemma DepthIff(rate: nat, q: nat, delta: nat)
    requires 0 < rate < HALF32 && q < W64
    ensures Post(rate, q, delta) <= 5 * rate <==>
            if q >= Cap(rate) then q <= 5 * rate
            else 0 <= q + Count(rate, delta) <= 5 * rate || q + Count(rate, delta) >= W64
  {
    hide Count;
    CountBounds(rate, delta);
    Posted(rate, q, delta);
    if q < Cap(rate) && q + Count(rate, delta) >= W64 {
      assert 5 * rate >= HALF32;
    }
  }

  /** A thousand events a second, 4999 queued and a sleep of ten milliseconds: 5009 events are queued. */
  lemma DepthOvershot()
    ensures Post(1000, 4999, 10_000_000) == 5009
  {
  }

  // --------------------------------------------------------------- limiters

  /** What one event pays for: an operation (iopslimit, opslimit) or a megabyte (bwlimit). */
  datatype Unit = Operation | Megabyte

  /**
    A limiter flowop.  `need` is the number of
    events a blocked call waits for.  `base` (the first non-zero sample) and
    `taken` (events taken so far) are history.
  */
  datatype Limiter = Limiter(unit: Unit, last: nat, bucket: int, need: nat, base: nat, taken: nat)

  function Need(unit: Unit, debt: nat): nat {
    match unit case Operation => debt case Megabyte => debt / MB + 1
  }

  function Pays(unit: Unit, events: nat): nat {
    match unit case Operation => events case Megabyte => events * MB
  }

  function Debit(bucket: int, delta: int): int {
    Signed64(bucket - delta)
  }

  /** An enabled call up to the point where it returns or blocks, with counter sample c. */
  function Sampled(l: Limiter, c: nat): Limiter {
    if l.last == 0 then
      l.(last := c, base := c)
    else
      var b := Debit(l.bucket, (c - l.last) % W64);
      l.(last := c, bucket := b, need := if b >= 0 then 0 else Need(l.unit, -b))
  }

  /** The blocked call finds enough events. */
  function Paid(l: Limiter): Limiter {
    l.(bucket := Signed64(l.bucket + Pays(l.unit, l.need)), taken := l.taken + l.need, need := 0)
  }

  /** The 64-bit debit is exact iff the resulting debt is at most 2^63. */
  lemma DebitExact(bucket: int, delta: nat)
    requires -HALF64 <= bucket < HALF64 && delta < W64
    ensures Debit(bucket, delta) == bucket - delta <==> delta - bucket <= HALF64
  {
  }

  predicate SafeSample(l: Limiter, c: nat) {
    l.last == 0 || c - l.last - l.bucket <= HALF64
  }

  function Slack(unit: Unit): nat {
    match unit case Operation => 0 case Megabyte => MB
  }

  /** The bucket is what was paid for minus what was done since the baseline; a blocked call is in debt. */
  ghost predicate LimiterOk(l: Limiter) {
    && l.base <= l.last < W64
    && l.bucket == Pays(l.unit, l.taken) - (l.last - l.base)
    && -HALF64 <= l.bucket <= Slack(l.unit)
    && (l.last == 0 ==> l.taken == 0)
    && (l.need > 0 ==> l.bucket < 0 && l.need == Need(l.unit, -l.bucket))
  }

  /** One event per operation; or every byte paid for, with at most a megabyte to spare. */
  ghost predicate Exact(l: Limiter) {
    match l.unit
    case Operation => l.taken == l.last - l.base && l.bucket == 0
    case Megabyte => 0 <= l.bucket == l.taken * MB - (l.last - l.base) <= MB
  }

  lemma SampledOk(l: Limiter, c: nat)
    requires LimiterOk(l) && l.need == 0 && l.last <= c < W64 && SafeSample(l, c)
    ensures LimiterOk(Sampled(l, c)) && Sampled(l, c).taken == l.taken
    ensures Sampled(l, c).need == 0 ==> Exact(Sampled(l, c))
  {
    hide Debit;
    if l.last != 0 {
      DebitExact(l.bucket, c - l.last);
      assert (c - l.last) % W64 == c - l.last;
    }
  }

  lemma SampledFacts(l: Limiter, c: nat)
    requires l.need == 0
    ensures LimiterOk(l) && l.last <= c < W64 && SafeSample(l, c) ==>
      LimiterOk(Sampled(l, c)) && (Sampled(l, c).need == 0 ==> Exact(Sampled(l, c)))
    ensures l.last != 0 && l.last <= c < W64 && SafeSample(l, c) && -HALF64 <= l.bucket < HALF64 ==>
      Debit(l.bucket, (c - l.last) % W64) == l.bucket - (c - l.last)
  {
    hide LimiterOk, Exact, Sampled, Debit;
    if LimiterOk(l) && l.last <= c < W64 && SafeSample(l, c) {
      SampledOk(l, c);
    }
    if -HALF64 <= l.bucket < HALF64 && 0 <= c - l.last < W64 {
      DebitExact(l.bucket, c - l.last);
    }
  }

  lemma PaidOk(l: Limiter)
    requires LimiterOk(l) && l.need > 0
    ensures LimiterOk(Paid(l)) && Exact(Paid(l))
  {
    var b := l.bucket + Pays(l.unit, l.need);
    assert 0 <= b <= Slack(l.unit);
  }

  // ------------------------------------------------------------- the system

  datatype Sys = Sys(rate: nat, start: nat, last: nat, q: nat, limiters: seq<Limiter>, singles: nat)

  /** Steps under the queue's lock, and a limiter's own sampling. */
  datatype Op =
    | Wake(t1: nat, t2: nat)       // the two clock readings of a wake-up
    | Reset                        // eventgen_reset
    | Single                       // eventlimit takes one event
    | Sample(i: nat, c: nat)
    | Take(i: nat)
    | Quit(i: nat)                 // a blocked call sees the generator disabled

  predicate Can(s: Sys, o: Op) {
    match o
    case Wake(t1, t2) => s.last <= t1 <= t2
    case Reset => true
    case Single => s.q > 0
    case Sample(i, c) => i < |s.limiters| && s.limiters[i].need == 0 && s.limiters[i].last <= c < W64
    case Take(i) => i < |s.limiters| && 0 < s.limiters[i].need <= s.q
    case Quit(i) => i < |s.limiters| && s.limiters[i].need > 0
  }

  function Apply(s: Sys, o: Op): Sys
    requires Can(s, o)
  {
    match o
    case Wake(t1, t2) => s.(q := Post(s.rate, s.q, t1 - s.last), last := t2)
    case Reset => s.(q := 0)
    case Single => s.(q := s.q - 1, singles := s.singles + 1)
    case Sample(i, c) => s.(limiters := s.limiters[i := Sampled(s.limiters[i], c)])
    case Take(i) => s.(q := s.q - s.limiters[i].need, limiters := s.limiters[i := Paid(s.limiters[i])])
    case Quit(i) => s.(limiters := s.limiters[i := s.limiters[i].(need := 0)])
  }

  predicate Legal(s: Sys, ops: seq<Op>)
    decreases |ops|
  {
    ops == [] || (Can(s, ops[0]) && Legal(Apply(s, ops[0]), ops[1..]))
  }

  function Run(s: Sys, ops: seq<Op>): Sys
    requires Legal(s, ops)
    decreases |ops|
  {
    if ops == [] then s else Run(Apply(s, ops[0]), ops[1..])
  }

  predicate WakeOk(s: Sys, o: Op)
    requires Can(s, o)
  {
    o.Wake? ==> SafeWake(s.rate, s.q, o.t1 - s.last)
  }

  /** Every wake-up of the run keeps within what is due. */
  predicate WakesOk(s: Sys, ops: seq<Op>)
    requires Legal(s, ops)
    decreases |ops|
  {
    ops != [] ==> WakeOk(s, ops[0]) && WakesOk(Apply(s, ops[0]), ops[1..])
  }

  predicate SampleOk(s: Sys, o: Op)
    requires Can(s, o)
  {
    o.Sample? ==> SafeSample(s.limiters[o.i], o.c)
  }

  /** Every debit of the run fits in a bucket. */
  predicate SamplesOk(s: Sys, ops: seq<Op>)
    requires Legal(s, ops)
    decreases |ops|
  {
    ops != [] ==> SampleOk(s, ops[0]) && SamplesOk(Apply(s, ops[0]), ops[1..])
  }

  predicate Fresh(l: Limiter) {
    l == Limiter(l.unit, 0, 0, 0, 0, 0)
  }

  ghost predicate Start(s: Sys) {
    s.last == s.start && s.q == 0 && s.singles == 0 && forall l :: l in s.limiters ==> Fresh(l)
  }

  // -------------------------------------------------------------- rate bound

  function Total(ls: seq<Limiter>): nat {
    if ls == [] then 0 else ls[0].taken + Total(ls[1..])
  }

  /** Events taken by all consumers. */
  function AllTaken(s: Sys): nat {
    s.singles + Total(s.limiters)
  }

  lemma {:induction false} TotalUpdate(ls: seq<Limiter>, i: nat, l: Limiter)
    requires i < |ls|
    ensures Total(ls[i := l]) == Total(ls) - ls[i].taken + l.taken
    decreases |ls|
  {
    if i == 0 {
      assert ls[0 := l][1..] == ls[1..];
    } else {
      assert ls[i := l][1..] == ls[1..][i - 1 := l];
      TotalUpdate(ls[1..], i - 1, l);
    }
  }

  lemma {:induction false} NothingTaken(ls: seq<Limiter>)
    requires forall l :: l in ls ==> Fresh(l)
    ensures Total(ls) == 0
  {
    if ls != [] {
      assert ls[0] in ls;
      NothingTaken(ls[1..]);
    }
  }

  function Elapsed(s: Sys): nat {
    if s.start <= s.last then s.last - s.start else 0
  }

  /** In whole nanosecond-events, so that the wake-ups' roundings add up. */
  ghost predicate Within(s: Sys) {
    s.start <= s.last && (s.q + AllTaken(s)) * NSEC <= s.rate * (s.last - s.start)
  }

  lemma Elapse(rate: nat, before: nat, delta: nat, more: nat, events: nat)
    requires events * NSEC <= rate * before
    ensures (events + Due(rate, delta)) * NSEC <= rate * (before + delta + more)
  {
    assert rate * (before + delta + more) == rate * before + rate * delta + rate * more;
    assert Due(rate, delta) * NSEC <= rate * delta;
    assert rate * more >= 0;
  }

  lemma StepWithin(s: Sys, o: Op)
    requires Within(s) && Can(s, o) && WakeOk(s, o)
    ensures Within(Apply(s, o))
  {
    match o
    case Wake(t1, t2) =>
      PostWithinIff(s.rate, s.q, t1 - s.last);
      Elapse(s.rate, s.last - s.start, t1 - s.last, t2 - t1, s.q + AllTaken(s));
    case Reset =>
    case Single =>
    case Sample(i, c) =>
      TotalUpdate(s.limiters, i, Sampled(s.limiters[i], c));
    case Take(i) =>
      TotalUpdate(s.limiters, i, Paid(s.limiters[i]));
    case Quit(i) =>
      TotalUpdate(s.limiters, i, s.limiters[i].(need := 0));
  }

  lemma {:induction false} RunWithin(s: Sys, ops: seq<Op>)
    requires Within(s) && Legal(s, ops) && WakesOk(s, ops)
    ensures Within(Run(s, ops)) && Run(s, ops).rate == s.rate && Run(s, ops).start == s.start
    decreases |ops|
  {
    hide Within, WakeOk;
    if ops != [] {
      StepWithin(s, ops[0]);
      RunWithin(Apply(s, ops[0]), ops[1..]);
    }
  }

  /** Events taken by all consumers plus those queued are within what was due since the start. */
  ghost predicate Bounded(s: Sys) {
    s.q + AllTaken(s) <= Due(s.rate, Elapsed(s))
  }

  lemma WithinIsBounded(s: Sys)
    requires Within(s)
    ensures Bounded(s)
  {
  }

  /** Events taken by all consumers plus those queued never exceed rate * elapsed time. */
  lemma RateBound(s: Sys, ops: seq<Op>)
    requires Start(s) && Legal(s, ops) && WakesOk(s, ops)
    ensures Bounded(Run(s, ops)) && Run(s, ops).rate == s.rate && Run(s, ops).start == s.start
    ensures Run(s, ops).last == Clock(ops, s.start)
  {
    RunClock(s, ops);
    NothingTaken(s.limiters);
    RunWithin(s, ops);
    WithinIsBounded(Run(s, ops));
  }

  ghost predicate AlwaysBounded(s: Sys, ops: seq<Op>)
    requires Legal(s, ops)
    decreases |ops|
  {
    Bounded(s) && (ops != [] ==> AlwaysBounded(Apply(s, ops[0]), ops[1..]))
  }

  lemma {:induction false} TimePasses(s: Sys, ops: seq<Op>)
    requires s.start <= s.last && Legal(s, ops)
    ensures Run(s, ops).rate == s.rate && Run(s, ops).start == s.start && s.last <= Run(s, ops).last
    decreases |ops|
  {
    hide Post, Sampled, Paid;
    if ops != [] {
      TimePasses(Apply(s, ops[0]), ops[1..]);
    }
  }

  lemma DueMono(rate: nat, x: nat, y: nat)
    requires x <= y
    ensures Due(rate, x) <= Due(rate, y)
  {
    assert rate * x <= rate * y;
    DivMono(rate * x, rate * y);
  }

  /** An unsafe wake-up leaves almost 2^64 events in the queue. */
  lemma UnsafeWake(s: Sys, o: Op)
    requires Can(s, o) && !WakeOk(s, o)
    ensures Apply(s, o).q >= W64 - HALF32
  {
    hide Count, Cap, Due, Post;
    CountBounds(s.rate, o.t1 - s.last);
    Posted(s.rate, s.q, o.t1 - s.last);
  }

  /**
    As long as fewer than 2^64 - 2^31 events are due in all, the bound holds in
    every state of a run if and only if every wake-up is safe.
  */
  lemma {:induction false} BoundedIff(s: Sys, ops: seq<Op>)
    requires Within(s) && Legal(s, ops) && Due(s.rate, Elapsed(Run(s, ops))) < W64 - HALF32
    ensures AlwaysBounded(s, ops) <==> WakesOk(s, ops)
    decreases |ops|
  {
    hide Due, WakeOk, Post, Sampled, Paid;
    WithinIsBounded(s);
    if ops != [] {
      var t := Apply(s, ops[0]);
      if WakeOk(s, ops[0]) {
        StepWithin(s, ops[0]);
        BoundedIff(t, ops[1..]);
      } else {
        UnsafeWake(s, ops[0]);
        NotBounded(s, ops);
      }
    }
  }

  lemma NotBounded(s: Sys, ops: seq<Op>)
    requires Within(s) && Legal(s, ops) && Due(s.rate, Elapsed(Run(s, ops))) < W64 - HALF32
    requires ops != [] && Apply(s, ops[0]).q >= W64 - HALF32
    ensures !AlwaysBounded(s, ops)
  {
    hide Due, Post, Sampled, Paid;
    var t := Apply(s, ops[0]);
    assert t.rate == s.rate && t.start == s.start && s.last <= t.last;
    TimePasses(t, ops[1..]);
    DueMono(s.rate, Elapsed(t), Elapsed(Run(s, ops)));
    assert !Bounded(t);
  }

  lemma RateBoundIff(s: Sys, ops: seq<Op>)
    requires Start(s) && Legal(s, ops) && Due(s.rate, Elapsed(Run(s, ops))) < W64 - HALF32
    ensures AlwaysBounded(s, ops) <==> WakesOk(s, ops)
  {
    NothingTaken(s.limiters);
    BoundedIff(s, ops);
  }

  // ------------------------------------------------------------ conservation

  /** What the wake-ups of a run added to the queue. */
  function AllPosted(s: Sys, ops: seq<Op>): int
    requires Legal(s, ops)
    decreases |ops|
  {
    if ops == [] then 0
    else (if ops[0].Wake? then Post(s.rate, s.q, ops[0].t1 - s.last) - s.q else 0) +
         AllPosted(Apply(s, ops[0]), ops[1..])
  }

  /** What the resets of a run dropped. */
  function AllCleared(s: Sys, ops: seq<Op>): nat
    requires Legal(s, ops)
    decreases |ops|
  {
    if ops == [] then 0
    else (if ops[0].Reset? then s.q else 0) + AllCleared(Apply(s, ops[0]), ops[1..])
  }

  lemma StepConserves(s: Sys, o: Op)
    requires Can(s, o)
    ensures var t := Apply(s, o);
      t.q + AllTaken(t) == s.q + AllTaken(s)
        + (if o.Wake? then Post(s.rate, s.q, o.t1 - s.last) - s.q else 0) - (if o.Reset? then s.q else 0)
  {
    hide Post, Debit, Need, Signed64, Pays;
    match o
    case Sample(i, c) =>
      TotalUpdate(s.limiters, i, Sampled(s.limiters[i], c));
    case Take(i) =>
      TotalUpdate(s.limiters, i, Paid(s.limiters[i]));
    case Quit(i) =>
      TotalUpdate(s.limiters, i, s.limiters[i].(need := 0));
    case _ =>
  }

  lemma {:induction false} RunConserves(s: Sys, ops: seq<Op>)
    requires Legal(s, ops)
    ensures s.q + AllTaken(s) + AllPosted(s, ops) == Run(s, ops).q + AllTaken(Run(s, ops)) + AllCleared(s, ops)
    decreases |ops|
  {
    hide Post, Apply, Can, AllTaken;
    if ops != [] {
      StepConserves(s, ops[0]);
      RunConserves(Apply(s, ops[0]), ops[1..]);
    }
  }

  /** From the start, what was posted is queued, taken or cleared, and nothing else is. */
  lemma EventsConserved(s: Sys, ops: seq<Op>)
    requires Start(s) && Legal(s, ops)
    ensures AllPosted(s, ops) == Run(s, ops).q + AllTaken(Run(s, ops)) + AllCleared(s, ops)
  {
    NothingTaken(s.limiters);
    RunConserves(s, ops);
  }

  /** The second clock reading of the latest wake-up, `last` when there is none. */
  function Clock(ops: seq<Op>, last: nat): nat {
    if ops == [] then last else Clock(ops[1..], if ops[0].Wake? then ops[0].t2 else last)
  }

  lemma {:induction false} RunClock(s: Sys, ops: seq<Op>)
    requires Legal(s, ops)
    ensures Run(s, ops).last == Clock(ops, s.last)
    decreases |ops|
  {
    hide Post, Sampled, Paid;
    if ops != [] {
      RunClock(Apply(s, ops[0]), ops[1..]);
    }
  }

  // ------------------------------------------------------- exact accounting

  ghost predicate LimitersOk(s: Sys) {
    forall i :: 0 <= i < |s.limiters| ==> LimiterOk(s.limiters[i])
  }

  lemma StartLimiters(s: Sys)
    requires Start(s)
    ensures LimitersOk(s)
  {
    assert forall i :: 0 <= i < |s.limiters| ==> s.limiters[i] in s.limiters;
  }

  lemma StepLimiters(s: Sys, o: Op)
    requires LimitersOk(s) && Can(s, o) && SampleOk(s, o)
    ensures LimitersOk(Apply(s, o))
  {
    match o
    case Sample(i, c) => SampledOk(s.limiters[i], c);
    case Take(i) => PaidOk(s.limiters[i]);
    case _ =>
  }

  lemma {:induction false} RunLimiters(s: Sys, ops: seq<Op>)
    requires LimitersOk(s) && Legal(s, ops) && SamplesOk(s, ops)
    ensures LimitersOk(Run(s, ops))
    decreases |ops|
  {
    hide LimitersOk, SampleOk;
    if ops != [] {
      StepLimiters(s, ops[0]);
      RunLimiters(Apply(s, ops[0]), ops[1..]);
    }
  }

  /** The counter samples that limiter i took in a run. */
  function Samples(ops: seq<Op>, i: nat): seq<nat> {
    if ops == [] then []
    else (if ops[0].Sample? && ops[0].i == i then [ops[0].c] else []) + Samples(ops[1..], i)
  }

  /** The baseline: the first sample that is not zero, 0 when there is none. */
  function Baseline(cs: seq<nat>): nat {
    if cs == [] then 0 else if cs[0] != 0 then cs[0] else Baseline(cs[1..])
  }

  function Latest(cs: seq<nat>): nat {
    if cs == [] then 0 else cs[|cs| - 1]
  }

  /** What was done, by limiter i's own samples, since its baseline. */
  function Since(ops: seq<Op>, i: nat): int {
    Latest(Samples(ops, i)) - Baseline(Samples(ops, i))
  }

  /** A limiter remembers the latest sample and the baseline. */
  lemma {:induction false} RunSamples(s: Sys, ops: seq<Op>, i: nat)
    requires Legal(s, ops) && i < |s.limiters| && (s.limiters[i].last == 0 ==> s.limiters[i].base == 0)
    ensures var cs, l, m := Samples(ops, i), s.limiters[i], Run(s, ops).limiters;
      && |m| == |s.limiters| && m[i].unit == l.unit
      && m[i].last == (if cs == [] then l.last else Latest(cs))
      && m[i].base == (if l.last == 0 then Baseline(cs) else l.base)
    decreases |ops|
  {
    hide Post, Debit, Need, Paid;
    if ops != [] {
      var t := Apply(s, ops[0]);
      StepSample(s, ops[0], i);
      RunSamples(t, ops[1..], i);
      SamplesCons(ops, i);
    }
  }

  lemma SamplesCons(ops: seq<Op>, i: nat)
    requires ops != []
    ensures var rest := Samples(ops[1..], i);
      if ops[0].Sample? && ops[0].i == i then
        && Samples(ops, i) == [ops[0].c] + rest
        && Baseline(Samples(ops, i)) == (if ops[0].c != 0 then ops[0].c else Baseline(rest))
        && Latest(Samples(ops, i)) == (if rest == [] then ops[0].c else Latest(rest))
      else
        Samples(ops, i) == rest
  {
    var cs := Samples(ops, i);
    if ops[0].Sample? && ops[0].i == i {
      assert cs[1..] == Samples(ops[1..], i);
    }
  }

  lemma StepSample(s: Sys, o: Op, i: nat)
    requires Can(s, o) && i < |s.limiters|
    ensures var l, m := s.limiters[i], Apply(s, o).limiters;
      && |m| == |s.limiters| && m[i].unit == l.unit
      && if o.Sample? && o.i == i then m[i].last == o.c && m[i].base == if l.last == 0 then o.c else l.base
         else m[i].last == l.last && m[i].base == l.base
  {
    hide Post, Debit, Need;
  }

  /** Limiter i's call ends with this step, the generator being enabled. */
  predicate EndsCall(s: Sys, o: Op, i: nat)
    requires Can(s, o)
  {
    match o
    case Sample(j, c) => j == i && Apply(s, o).limiters[i].need == 0
    case Take(j) => j == i
    case _ => false
  }

  lemma {:induction false} LegalSnoc(s: Sys, ops: seq<Op>, o: Op)
    requires Legal(s, ops) && Can(Run(s, ops), o)
    ensures Legal(s, ops + [o]) && Run(s, ops + [o]) == Apply(Run(s, ops), o)
    ensures WakesOk(s, ops + [o]) <==> WakesOk(s, ops) && WakeOk(Run(s, ops), o)
    decreases |ops|
  {
    hide WakeOk, Can, Apply;
    if ops == [] {
      assert ops + [o] == [o];
      assert [o][1..] == [];
    } else {
      assert (ops + [o])[1..] == ops[1..] + [o];
      LegalSnoc(Apply(s, ops[0]), ops[1..], o);
    }
  }

  lemma SamplesThrough(s: Sys, ops: seq<Op>, o: Op, i: nat)
    requires Start(s) && Legal(s, ops) && Can(Run(s, ops), o) && i < |s.limiters|
    ensures var l := Apply(Run(s, ops), o).limiters;
      i < |l| && l[i].last - l[i].base == Since(ops + [o], i)
  {
    LegalSnoc(s, ops, o);
    assert s.limiters[i] in s.limiters;
    RunSamples(s, ops + [o], i);
    if Samples(ops + [o], i) == [] {
      assert Run(s, ops + [o]).limiters[i].last == 0;
    }
  }

  /**
    When an enabled call ends, iopslimit and opslimit have taken exactly one
    event per operation since the baseline, and bwlimit has paid for every byte
    with less than or equal to a megabyte to spare - whatever happened before,
    calls cut short included.
  */
  lemma CallsAreExact(s: Sys, ops: seq<Op>, o: Op, i: nat)
    requires Start(s) && Legal(s, ops) && SamplesOk(s, ops)
    requires i < |s.limiters| && Can(Run(s, ops), o) && SampleOk(Run(s, ops), o) && EndsCall(Run(s, ops), o, i)
    ensures Exact(Apply(Run(s, ops), o).limiters[i])
    ensures var l := Apply(Run(s, ops), o).limiters[i];
      match l.unit
      case Operation => l.taken == Since(ops + [o], i)
      case Megabyte => 0 <= l.taken * MB - Since(ops + [o], i) <= MB
  {
    SamplesThrough(s, ops, o, i);
    hide Sampled, Paid, SafeSample, Fresh, Samples;
    StartLimiters(s);
    RunLimiters(s, ops);
    var t := Run(s, ops);
    match o
    case Sample(_, c) => SampledOk(t.limiters[i], c);
    case Take(_) => PaidOk(t.limiters[i]);
  }

  lemma {:induction false} PartOfTotal(ls: seq<Limiter>, i: nat)
    requires i < |ls|
    ensures ls[i].taken <= Total(ls)
    decreases |ls|
  {
    if i > 0 {
      PartOfTotal(ls[1..], i - 1);
    }
  }

  /** End to end: what a limiter let through since its baseline is within what rate * elapsed time pays for. */
  lemma Throughput(s: Sys, ops: seq<Op>, o: Op, i: nat)
    requires Start(s) && Legal(s, ops) && SamplesOk(s, ops) && WakesOk(s, ops)
    requires i < |s.limiters| && Can(Run(s, ops), o) && SampleOk(Run(s, ops), o) && EndsCall(Run(s, ops), o, i)
    ensures var t := Apply(Run(s, ops), o);
      Since(ops + [o], i) <= Pays(t.limiters[i].unit, Due(s.rate, Elapsed(t)))
  {
    hide Samples, SampleOk, SafeSample, SafeWake, Sampled, Paid, Post, Due;
    LegalSnoc(s, ops, o);
    RateBound(s, ops + [o]);
    var t := Apply(Run(s, ops), o);
    PartOfTotal(t.limiters, i);
    CallsAreExact(s, ops, o, i);
  }

  // -------------------------------------------------------------- queue depth

  /** Every wake-up of the run has at most m events due. */
  ghost predicate Bursts(s: Sys, ops: seq<Op>, m: nat)
    requires Legal(s, ops)
    decreases |ops|
  {
    ops != [] ==>
      && (ops[0].Wake? ==> Due(s.rate, ops[0].t1 - s.last) <= m)
      && Bursts(Apply(s, ops[0]), ops[1..], m)
  }

  /** Over every run the depth limit, which `CapExact` is about, is overshot by less than one wake-up's events. */
  lemma {:induction false} QueueDepth(s: Sys, ops: seq<Op>, m: nat)
    requires Legal(s, ops) && WakesOk(s, ops) && Bursts(s, ops, m) && s.q < Cap(s.rate) + m
    ensures Run(s, ops).q < Cap(s.rate) + m
    decreases |ops|
  {
    hide Cap;
    if ops != [] {
      if ops[0].Wake? {
        PostWithinIff(s.rate, s.q, ops[0].t1 - s.last);
      }
      QueueDepth(Apply(s, ops[0]), ops[1..], m);
    }
  }

  // ---------------------------------------------------------- the code itself

  /** The shared queue and the generator thread's state. */
  class Generator {
    const rate: nat
    var last: nat
    var q: nat

    constructor (rate: nat, now: nat)
      ensures this.rate == rate && last == now && q == 0
    {
      this.rate := rate;
      last := now;
      q := 0;
    }

    /** One turn of the generator's loop after its sleep. */
    method WakeUp(t1: nat, t2: nat)
      requires last <= t1 <= t2
      modifies this
      ensures last == t2 && q == Post(rate, old(q), t1 - old(last))
      ensures q <= old(q) + Due(rate, t1 - old(last)) <==> SafeWake(rate, old(q), t1 - old(last))
    {
      PostWithinIff(rate, q, t1 - last);
      var delta := t1 - last;
      last := t2;
      var count := Signed32((rate * delta) % W64 / NSEC);
      if q < Signed32(5 * rate) % W64 {
        q := (q + count) % W64;
      }
    }

    /** eventgen_reset */
    method Clear()
      modifies this`q
      ensures q == 0
    {
      q := 0;
    }

    /** The locked region of a consumer; ok is false when it has to wait. */
    method TryTake(events: nat) returns (ok: bool)
      modifies this`q
      ensures ok <==> old(q) >= events
      ensures q == old(q) - if ok then events else 0
    {
      ok := q >= events;
      if ok {
        q := q - events;
      }
    }
  }

  /** What others do while a limiter waits: the generator wakes up, a consumer takes an event, the queue is reset. */
  datatype Other = Tick(t1: nat, t2: nat) | Taken | Cleared

  /** Clock readings of successive wake-ups do not decrease. */
  predicate Ticks(last: nat, others: seq<Other>)
    decreases |others|
  {
    others == [] ||
    match others[0]
    case Tick(t1, t2) => last <= t1 <= t2 && Ticks(t2, others[1..])
    case _ => Ticks(last, others[1..])
  }

  /** A limiter flowop's own fields, with its history as ghost state. */
  class Bucket {
    const unit: Unit
    var tputlast: nat
    var tputbucket: int
    var events: nat
    ghost var base: nat
    ghost var taken: nat

    ghost function View(): Limiter
      reads this
    {
      Limiter(unit, tputlast, tputbucket, events, base, taken)
    }

    /** The system of this limiter, a generator and other consumers, who have taken `singles` events. */
    ghost function With(g: Generator, start: nat, singles: nat): Sys
      reads this, g
    {
      Sys(g.rate, start, g.last, g.q, [View()], singles)
    }

    constructor (unit: Unit)
      ensures Fresh(View()) && View().unit == unit
    {
      this.unit := unit;
      tputlast, tputbucket, events, base, taken := 0, 0, 0, 0, 0;
    }

    /** An enabled call up to its wait; blocked tells whether it has to take events. */
    method Call(sample: nat) returns (blocked: bool)
      requires events == 0
      modifies this
      ensures View() == Sampled(old(View()), sample)
      ensures blocked <==> events > 0
      ensures tputlast == sample
      ensures old(tputlast) == 0 ==> !blocked && base == sample && tputbucket == old(tputbucket)
      ensures old(tputlast) != 0 && old(tputlast) <= sample < W64 && SafeSample(old(View()), sample) &&
              -HALF64 <= old(tputbucket) < HALF64 ==>
        && (blocked <==> sample - old(tputlast) > old(tputbucket))
        && tputbucket == old(tputbucket) - (sample - old(tputlast)) && base == old(base)
      ensures old(LimiterOk(View())) && old(tputlast) <= sample < W64 && SafeSample(old(View()), sample) ==>
                LimiterOk(View()) && (!blocked ==> Exact(View()))
    {
      hide LimiterOk, Exact, SafeSample;
      SampledFacts(View(), sample);
      if tputlast == 0 {
        tputlast := sample;
        base := sample;
        return false;
      }
      var delta := (sample - tputlast) % W64;
      tputbucket := Signed64(tputbucket - delta);
      tputlast := sample;
      if tputbucket >= 0 {
        return false;
      }
      var owed: nat := -tputbucket;
      events := if unit == Megabyte then owed / MB + 1 else owed;
      blocked := true;
    }

    /** One turn of a blocked call's loop. */
    method Attempt(g: Generator) returns (ok: bool)
      requires events > 0
      modifies this, g`q
      ensures (ok <==> old(g.q) >= old(events)) && (ok <==> events == 0)
      ensures ok ==> View() == Paid(old(View())) && g.q == old(g.q) - old(events)
      ensures !ok ==> View() == old(View()) && g.q == old(g.q)
      ensures old(LimiterOk(View())) ==> LimiterOk(View()) && (ok ==> Exact(View()))
    {
      if LimiterOk(View()) {
        PaidOk(View());
      }
      ok := g.TryTake(events);
      if ok {
        tputbucket := Signed64(tputbucket + if unit == Megabyte then events * MB else events);
        taken := taken + events;
        events := 0;
      }
    }

    /** One step of the others. */
    method Meanwhile(g: Generator, other: Other, ghost start: nat, ghost s0: nat, ghost s: Sys, ghost run: seq<Op>)
      returns (ghost singles: nat, ghost more: seq<Op>)
      requires other.Tick? ==> g.last <= other.t1 <= other.t2
      requires Legal(s, run) && Run(s, run) == With(g, start, s0)
      modifies g
      ensures Legal(s, more) && Run(s, more) == With(g, start, singles)
      ensures View() == old(View()) && g.last == if other.Tick? then other.t2 else old(g.last)
    {
      hide Post, Sampled, Paid, SafeWake, Due;
      singles, more := s0, run;
      match other
      case Tick(t1, t2) =>
        LegalSnoc(s, run, Wake(t1, t2));
        g.WakeUp(t1, t2);
        more := run + [Wake(t1, t2)];
      case Taken =>
        var ok := g.TryTake(1);
        if ok {
          LegalSnoc(s, run, Single);
          singles, more := s0 + 1, run + [Single];
        }
      case Cleared =>
        LegalSnoc(s, run, Reset);
        g.Clear();
        more := run + [Reset];
    }

    /**
      A whole enabled call: it samples, and while it is short of events it waits,
      while the others do as they like.  It is a run of the system; when it is over
      its accounts are exact.
    */
    method Limit(g: Generator, sample: nat, others: seq<Other>, ghost start: nat, ghost s0: nat)
      returns (done: bool, ghost singles: nat, ghost run: seq<Op>)
      requires events == 0 && tputlast <= sample < W64 && Ticks(g.last, others)
      modifies this, g
      ensures Legal(old(With(g, start, s0)), run) && Run(old(With(g, start, s0)), run) == With(g, start, singles)
      ensures done <==> events == 0
      ensures old(LimiterOk(View())) && SafeSample(old(View()), sample) ==>
                LimiterOk(View()) && (done ==> Exact(View()))
      ensures old(Start(With(g, start, s0))) && WakesOk(old(With(g, start, s0)), run) ==>
                Bounded(With(g, start, singles))
    {
      hide LimiterOk, Exact, SafeSample, Sampled, Paid, Post, Start, WakesOk, WakeOk, Bounded, SafeWake, Due;
      ghost var s := With(g, start, s0);
      ghost var fine := LimiterOk(View()) && SafeSample(View(), sample);
      var blocked := Call(sample);
      LegalSnoc(s, [], Sample(0, sample));
      run, singles := [] + [Sample(0, sample)], s0;
      done := !blocked;
      var k := 0;
      while !done
        invariant k <= |others| && Ticks(g.last, others[k..])
        invariant Legal(s, run) && Run(s, run) == With(g, start, singles)
        invariant done <==> events == 0
        invariant fine ==> LimiterOk(View()) && (done ==> Exact(View()))
        decreases |others| - k, !done
      {
        done := Attempt(g);
        if done {
          LegalSnoc(s, run, Take(0));
          run := run + [Take(0)];
        } else if k == |others| {
          break;
        } else {
          singles, run := Meanwhile(g, others[k], start, singles, s, run);
          k := k + 1;
        }
      }
      if old(Start(With(g, start, s0))) && WakesOk(s, run) {
        RateBound(s, run);
      }
    }
  }
}
