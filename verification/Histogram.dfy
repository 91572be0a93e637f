/** The lock-free latency histogram as a step machine: any number of `record`
    calls interleave their atomic operations, compare-exchange may fail for no
    reason, and the totals are exact once all calls have finished. */
module Histogram {
  import opened Bits
  import opened Words

  /** Logarithmic bucket of a value. */
  function BucketIndex(value: u64): nat {
    var b := BitLength(value);
    if b > 63 then 63 else b
  }

  /** Bucket 0 holds zero, bucket `i` the values with top bit `i - 1`, and the
      last bucket everything from 2^62 up. */
  lemma BucketMeans(value: u64)
    ensures BucketIndex(value) == 0 <==> value == 0
    ensures 0 < BucketIndex(value) < 63 ==> Pow2(BucketIndex(value) - 1) <= value < Pow2(BucketIndex(value))
    ensures BucketIndex(value) == 63 ==> Pow2(62) <= value
  {
    if value > 0 {
      BitLengthBounds(value);
      if BitLength(value) > 63 {
        Pow2Monotone(62, BitLength(value) - 1);
      }
    }
  }

  // --------------------------------------------------------- the machine

  datatype Shared = Shared(buckets: seq<u64>, sum: u64, count: u64, min: u64, max: u64)

  /** Next atomic operation of a call. */
  datatype Pc =
    | AddBucket | AddSum | AddCount
    | LoadMin | SwapMin(current: u64)
    | LoadMax | SwapMax(current: u64)
    | Finished
  {
    /** How many of the eight stages lie behind. */
    function Stage(): nat {
      match this
      case AddBucket => 0
      case AddSum => 1
      case AddCount => 2
      case LoadMin => 3
      case SwapMin(_) => 4
      case LoadMax => 5
      case SwapMax(_) => 6
      case Finished => 7
    }
  }

  datatype Call = Call(value: u64, pc: Pc)

  datatype State = State(shared: Shared, calls: seq<Call>)

  function Add(a: u64, b: nat): u64 { (a + b) % 0x1_0000_0000_0000_0000 }

  function Init(): State { State(Shared(seq(64, _ => 0), 0, 0, U64_MAX, 0), []) }

  /** A call's next operation on the shared words; `spurious` lets a weak
      compare-exchange fail although the word has the expected value. */
  function StepCall(s: Shared, c: Call, spurious: bool): (Shared, Pc)
    requires |s.buckets| == 64
  {
    match c.pc
    case AddBucket =>
      var i := BucketIndex(c.value);
      (s.(buckets := s.buckets[i := Add(s.buckets[i], 1)]), AddSum)
    case AddSum => (s.(sum := Add(s.sum, c.value)), AddCount)
    case AddCount => (s.(count := Add(s.count, 1)), LoadMin)
    case LoadMin => (s, SwapMin(s.min))
    case SwapMin(current) =>
      if c.value >= current then (s, LoadMax)
      else if s.min == current && !spurious then (s.(min := c.value), LoadMax)
      else (s, SwapMin(s.min))
    case LoadMax => (s, SwapMax(s.max))
    case SwapMax(current) =>
      if c.value <= current then (s, Finished)
      else if s.max == current && !spurious then (s.(max := c.value), Finished)
      else (s, SwapMax(s.max))
    case Finished => (s, Finished)
  }

  datatype Event = Begin(value: u64) | Step(id: nat, spurious: bool)

  ghost predicate Next(s: State, e: Event, t: State) {
    match e
    case Begin(v) => t == State(s.shared, s.calls + [Call(v, AddBucket)])
    case Step(id, spurious) =>
      && id < |s.calls| && |s.shared.buckets| == 64
      && var (shared, pc) := StepCall(s.shared, s.calls[id], spurious);
         t == State(shared, s.calls[id := s.calls[id].(pc := pc)])
  }

  ghost predicate Steps(s: State, t: State) { exists e :: Next(s, e, t) }

  ghost predicate Execution(trace: seq<State>) {
    && |trace| > 0 && trace[0] == Init()
    && forall i :: 0 <= i < |trace| - 1 ==> Steps(trace[i], trace[i + 1])
  }

  // ------------------------------------------------------------- tallies

  /** Sum of a weight over all calls. */
  function Tally(calls: seq<Call>, weight: Call -> nat): nat {
    if calls == [] then 0 else Tally(calls[..|calls| - 1], weight) + weight(calls[|calls| - 1])
  }

  lemma TallyAppend(calls: seq<Call>, c: Call, weight: Call -> nat)
    ensures Tally(calls + [c], weight) == Tally(calls, weight) + weight(c)
  {
    assert (calls + [c])[..|calls|] == calls;
  }

  lemma {:induction false} TallyUpdate(calls: seq<Call>, k: nat, c: Call, weight: Call -> nat)
    requires k < |calls|
    ensures Tally(calls[k := c], weight) + weight(calls[k]) == Tally(calls, weight) + weight(c)
  {
    var n := |calls| - 1;
    if k < n {
      TallyUpdate(calls[..n], k, c, weight);
      assert calls[k := c][..n] == calls[..n][k := c];
    } else {
      assert calls[k := c][..n] == calls[..n];
    }
  }

  /** One for calls already counted in bucket `i`. */
  function InBucket(i: nat): Call -> nat {
    (c: Call) => if c.pc.Stage() > 0 && BucketIndex(c.value) == i then 1 else 0
  }

  function Added(): Call -> nat { (c: Call) => if c.pc.Stage() > 1 then c.value else 0 }

  function Counted(): Call -> nat { (c: Call) => if c.pc.Stage() > 2 then 1 else 0 }

  function Wrap(n: nat): u64 { n % 0x1_0000_0000_0000_0000 }

  // ----------------------------------------------------------- invariant

  ghost predicate Totals(s: State) {
    && |s.shared.buckets| == 64
    && (forall i :: 0 <= i < 64 ==> s.shared.buckets[i] == Wrap(Tally(s.calls, InBucket(i))))
    && s.shared.sum == Wrap(Tally(s.calls, Added()))
    && s.shared.count == Wrap(Tally(s.calls, Counted()))
  }

  /** The extremes are attained (or initial), bound every call past its update and
      are at least as extreme as what any call last saw. */
  ghost predicate Extremes(s: State) {
    && (s.shared.min == U64_MAX || Attained(s.shared.min, s.calls))
    && (s.shared.max == 0 || Attained(s.shared.max, s.calls))
    && forall k :: 0 <= k < |s.calls| ==> CallBounded(s.shared, s.calls[k])
  }

  ghost predicate CallBounded(s: Shared, c: Call) {
    && (c.pc.SwapMin? ==> s.min <= c.pc.current)
    && (c.pc.SwapMax? ==> s.max >= c.pc.current)
    && (c.pc.Stage() > 4 ==> s.min <= c.value)
    && (c.pc.Stage() > 6 ==> s.max >= c.value)
  }

  /** One atomic operation changes each total by what the call's weight gains. */
  lemma StepWeights(s: Shared, c: Call, spurious: bool, i: nat)
    requires |s.buckets| == 64 && i < 64
    ensures var (s', pc) := StepCall(s, c, spurious);
            var d := c.(pc := pc);
            && |s'.buckets| == 64
            && InBucket(i)(d) >= InBucket(i)(c) && Added()(d) >= Added()(c) && Counted()(d) >= Counted()(c)
            && s'.buckets[i] == Add(s.buckets[i], InBucket(i)(d) - InBucket(i)(c))
            && s'.sum == Add(s.sum, Added()(d) - Added()(c))
            && s'.count == Add(s.count, Counted()(d) - Counted()(c))
  {
  }

  lemma WrapGain(tally: nat, tally': nat, gain: nat)
    requires tally' == tally + gain
    ensures Add(Wrap(tally), gain) == Wrap(tally')
  {
  }

  lemma StepTotals(s: State, t: State, id: nat, spurious: bool)
    requires Totals(s) && id < |s.calls| && Next(s, Step(id, spurious), t)
    ensures Totals(t)
  {
    forall i | 0 <= i < 64
      ensures t.shared.buckets[i] == Wrap(Tally(t.calls, InBucket(i)))
      ensures t.shared.sum == Wrap(Tally(t.calls, Added()))
      ensures t.shared.count == Wrap(Tally(t.calls, Counted()))
    {
      StepTotal(s, t, id, spurious, i);
    }
    StepTotal(s, t, id, spurious, 0);
  }

  lemma StepTotal(s: State, t: State, id: nat, spurious: bool, i: nat)
    requires Totals(s) && id < |s.calls| && Next(s, Step(id, spurious), t) && i < 64
    ensures |t.shared.buckets| == 64
    ensures t.shared.buckets[i] == Wrap(Tally(t.calls, InBucket(i)))
    ensures t.shared.sum == Wrap(Tally(t.calls, Added()))
    ensures t.shared.count == Wrap(Tally(t.calls, Counted()))
  {
    StepWeights(s.shared, s.calls[id], spurious, i);
    Gained(s, t, id, InBucket(i));
    Gained(s, t, id, Added());
    Gained(s, t, id, Counted());
  }

  lemma Gained(s: State, t: State, id: nat, weight: Call -> nat)
    requires id < |s.calls| == |t.calls| && t.calls == s.calls[id := t.calls[id]]
    requires weight(t.calls[id]) >= weight(s.calls[id])
    ensures Add(Wrap(Tally(s.calls, weight)), weight(t.calls[id]) - weight(s.calls[id]))
         == Wrap(Tally(t.calls, weight))
  {
    TallyUpdate(s.calls, id, t.calls[id], weight);
    WrapGain(Tally(s.calls, weight), Tally(t.calls, weight), weight(t.calls[id]) - weight(s.calls[id]));
  }

  lemma BeginTotals(s: State, t: State, v: u64)
    requires Totals(s) && Next(s, Begin(v), t)
    ensures Totals(t)
  {
    var c := Call(v, AddBucket);
    TallyAppend(s.calls, c, Added());
    TallyAppend(s.calls, c, Counted());
    forall i | 0 <= i < 64
      ensures Tally(t.calls, InBucket(i)) == Tally(s.calls, InBucket(i))
    {
      TallyAppend(s.calls, c, InBucket(i));
    }
  }

  /** One atomic operation only widens the extremes, to the call's own value. */
  lemma StepWidens(s: Shared, c: Call, spurious: bool)
    requires |s.buckets| == 64
    ensures var (s', pc) := StepCall(s, c, spurious);
            && s'.min <= s.min && s'.max >= s.max
            && (s'.min == s.min || s'.min == c.value)
            && (s'.max == s.max || s'.max == c.value)
            && (CallBounded(s, c) ==> CallBounded(s', c.(pc := pc)))
  {
  }

  lemma StillBounded(s: Shared, s': Shared, c: Call)
    requires CallBounded(s, c) && s'.min <= s.min && s'.max >= s.max
    ensures CallBounded(s', c)
  {
  }

  ghost predicate Attained(m: nat, calls: seq<Call>) {
    exists k :: 0 <= k < |calls| && calls[k].value == m
  }

  lemma StepExtremes(s: State, t: State, e: Event)
    requires Extremes(s) && Next(s, e, t)
    ensures Extremes(t) && t.shared.min <= s.shared.min && t.shared.max >= s.shared.max
  {
    match e {
      case Begin(v) =>
        forall m | Attained(m, s.calls)
          ensures Attained(m, t.calls)
        {
          var k :| 0 <= k < |s.calls| && s.calls[k].value == m;
          assert t.calls[k].value == m;
        }
      case Step(id, spurious) =>
        StepWidens(s.shared, s.calls[id], spurious);
        forall m | Attained(m, s.calls) || m == s.calls[id].value
          ensures Attained(m, t.calls)
        {
          var k :| 0 <= k < |s.calls| && s.calls[k].value == m;
          assert t.calls[k].value == m;
        }
        forall k | 0 <= k < |t.calls|
          ensures CallBounded(t.shared, t.calls[k])
        {
          assert CallBounded(s.shared, s.calls[k]);
          if k != id {
            StillBounded(s.shared, t.shared, s.calls[k]);
          }
        }
    }
  }

  lemma StepKeepsTotals(s: State, t: State)
    requires Totals(s) && Steps(s, t)
    ensures Totals(t)
  {
    var e :| Next(s, e, t);
    match e {
      case Begin(v) => BeginTotals(s, t, v);
      case Step(id, spurious) => StepTotals(s, t, id, spurious);
    }
  }

  lemma StepKeepsExtremes(s: State, t: State)
    requires Extremes(s) && Steps(s, t)
    ensures Extremes(t) && t.shared.min <= s.shared.min && t.shared.max >= s.shared.max
  {
    var e :| Next(s, e, t);
    StepExtremes(s, t, e);
  }

  lemma InitInvariant()
    ensures Totals(Init()) && Extremes(Init())
  {
  }

  /** Totals and extremes at every point of every run. */
  lemma {:induction false} RunInvariant(trace: seq<State>, i: nat)
    requires Execution(trace) && i < |trace|
    ensures Totals(trace[i]) && Extremes(trace[i])
  {
    if i == 0 {
      InitInvariant();
    } else {
      RunInvariant(trace, i - 1);
      StepAt(trace, i - 1);
      StepKeepsTotals(trace[i - 1], trace[i]);
      StepKeepsExtremes(trace[i - 1], trace[i]);
    }
  }

  lemma StepAt(trace: seq<State>, i: nat)
    requires Execution(trace) && i + 1 < |trace|
    ensures Steps(trace[i], trace[i + 1])
  {
  }

  /** Over any stretch of a run the extremes only widen. */
  lemma {:induction false} ExtremesOnlyWiden(trace: seq<State>, i: nat, j: nat)
    requires Execution(trace) && i <= j < |trace|
    ensures trace[j].shared.min <= trace[i].shared.min && trace[j].shared.max >= trace[i].shared.max
    decreases j - i
  {
    if i < j {
      ExtremesOnlyWiden(trace, i, j - 1);
      RunInvariant(trace, j - 1);
      StepAt(trace, j - 1);
      StepKeepsExtremes(trace[j - 1], trace[j]);
    }
  }

  // ----------------------------------------------------- once all is done

  ghost predicate Quiet(s: State) {
    forall k :: 0 <= k < |s.calls| ==> s.calls[k].pc.Finished?
  }

  ghost function SumValues(calls: seq<Call>): nat {
    if calls == [] then 0 else SumValues(calls[..|calls| - 1]) + calls[|calls| - 1].value
  }

  /** Number of calls whose value belongs in bucket `i`. */
  ghost function CallsIn(calls: seq<Call>, i: nat): nat {
    if calls == [] then 0
    else CallsIn(calls[..|calls| - 1], i) + if BucketIndex(calls[|calls| - 1].value) == i then 1 else 0
  }

  lemma {:induction false} QuietTallies(calls: seq<Call>, i: nat)
    requires forall k :: 0 <= k < |calls| ==> calls[k].pc.Finished?
    ensures Tally(calls, Added()) == SumValues(calls) && Tally(calls, Counted()) == |calls|
    ensures Tally(calls, InBucket(i)) == CallsIn(calls, i)
  {
    if calls != [] {
      QuietTallies(calls[..|calls| - 1], i);
    }
  }

  function SumBuckets(buckets: seq<u64>): nat {
    if buckets == [] then 0 else SumBuckets(buckets[..|buckets| - 1]) + buckets[|buckets| - 1]
  }

  /** Calls whose bucket number is below `n`. */
  ghost function CallsBelow(calls: seq<Call>, n: nat): nat {
    if calls == [] then 0
    else CallsBelow(calls[..|calls| - 1], n) + if BucketIndex(calls[|calls| - 1].value) < n then 1 else 0
  }

  lemma {:induction false} BelowStep(calls: seq<Call>, n: nat)
    ensures CallsBelow(calls, n + 1) == CallsBelow(calls, n) + CallsIn(calls, n)
  {
    if calls != [] {
      BelowStep(calls[..|calls| - 1], n);
    }
  }

  lemma {:induction false} BelowEnds(calls: seq<Call>)
    ensures CallsBelow(calls, 0) == 0 && CallsBelow(calls, 64) == |calls|
  {
    if calls != [] {
      BelowEnds(calls[..|calls| - 1]);
    }
  }

  lemma {:induction false} BucketsAddUp(calls: seq<Call>, buckets: seq<u64>)
    requires forall i :: 0 <= i < |buckets| ==> buckets[i] == Wrap(CallsIn(calls, i))
    ensures Wrap(SumBuckets(buckets)) == Wrap(CallsBelow(calls, |buckets|))
  {
    if buckets == [] {
      BelowEnds(calls);
    } else {
      var n := |buckets| - 1;
      BucketsAddUp(calls, buckets[..n]);
      BelowStep(calls, n);
      assert buckets[n] == Wrap(CallsIn(calls, n));
      WrapAdd(SumBuckets(buckets[..n]), CallsBelow(calls, n), CallsIn(calls, n));
    }
  }

  lemma WrapAdd(a: nat, b: nat, c: nat)
    requires Wrap(a) == Wrap(b)
    ensures Wrap(a + Wrap(c)) == Wrap(b + c)
  {
  }

  ghost predicate IsMin(m: nat, calls: seq<Call>) {
    && Attained(m, calls)
    && forall k :: 0 <= k < |calls| ==> m <= calls[k].value
  }

  ghost predicate IsMax(m: nat, calls: seq<Call>) {
    && Attained(m, calls)
    && forall k :: 0 <= k < |calls| ==> calls[k].value <= m
  }

  /** When every call has finished, in whatever interleaving, all totals are exact
      modulo 2^64 and the extremes are exact. */
  lemma QuietIsExact(trace: seq<State>, i: nat)
    requires Execution(trace) && i < |trace| && Quiet(trace[i])
    ensures var s := trace[i].shared;
            var calls := trace[i].calls;
            && |s.buckets| == 64
            && s.count == Wrap(|calls|) && s.sum == Wrap(SumValues(calls))
            && (forall b :: 0 <= b < 64 ==> s.buckets[b] == Wrap(CallsIn(calls, b)))
            && Wrap(SumBuckets(s.buckets)) == s.count
            && (calls != [] ==> IsMin(s.min, calls) && IsMax(s.max, calls))
            && (calls == [] ==> s.min == U64_MAX && s.max == 0)
  {
    RunInvariant(trace, i);
    var s, calls := trace[i].shared, trace[i].calls;
    QuietTallies(calls, 0);
    forall b | 0 <= b < 64
      ensures s.buckets[b] == Wrap(CallsIn(calls, b))
    {
      QuietTallies(calls, b);
    }
    BucketsAddUp(calls, s.buckets);
    BelowEnds(calls);
    QuietExtremes(trace[i]);
  }

  lemma QuietExtremes(s: State)
    requires Extremes(s) && Quiet(s)
    ensures s.calls != [] ==> IsMin(s.shared.min, s.calls) && IsMax(s.shared.max, s.calls)
    ensures s.calls == [] ==> s.shared.min == U64_MAX && s.shared.max == 0
  {
    forall k | 0 <= k < |s.calls|
      ensures s.shared.min <= s.calls[k].value <= s.shared.max
    {
      assert CallBounded(s.shared, s.calls[k]);
    }
    if s.calls != [] {
      assert s.shared.min <= s.calls[0].value <= s.shared.max;
    }
  }

  /** From the moment a call finishes, in every later state of the run, the
      extremes enclose its value. */
  lemma FinishedCallEnclosed(trace: seq<State>, i: nat, k: nat)
    requires Execution(trace) && i < |trace| && k < |trace[i].calls| && trace[i].calls[k].pc.Finished?
    ensures forall j :: i <= j < |trace| ==> trace[j].shared.min <= trace[i].calls[k].value <= trace[j].shared.max
  {
    RunInvariant(trace, i);
    assert CallBounded(trace[i].shared, trace[i].calls[k]);
    forall j | i <= j < |trace|
      ensures trace[j].shared.min <= trace[i].calls[k].value <= trace[j].shared.max
    {
      ExtremesOnlyWiden(trace, i, j);
    }
  }

  datatype Stats = Stats(count: u64, sum: u64, min: u64, max: u64, avg: u64)

  function StatsOf(s: Shared): Stats {
    if s.count > 0 then Stats(s.count, s.sum, s.min, s.max, s.sum / s.count)
    else Stats(s.count, s.sum, 0, 0, 0)
  }

  /** Statistics read while no call is in flight describe exactly the recorded
      values, provided their number and their sum fit in 64 bits. */
  lemma QuietStats(trace: seq<State>, i: nat)
    requires Execution(trace) && i < |trace| && Quiet(trace[i])
    requires |trace[i].calls| <= U64_MAX && SumValues(trace[i].calls) <= U64_MAX
    ensures var calls := trace[i].calls;
            var r := StatsOf(trace[i].shared);
            && r.count == |calls| && r.sum == SumValues(calls)
            && (calls == [] ==> r == Stats(0, 0, 0, 0, 0))
            && (calls != [] ==> IsMin(r.min, calls) && IsMax(r.max, calls) && r.avg == SumValues(calls) / |calls|)
  {
    QuietIsExact(trace, i);
    WrapSmall(|trace[i].calls|);
    WrapSmall(SumValues(trace[i].calls));
    NoSum(trace[i].calls);
  }

  lemma WrapSmall(n: nat)
    requires n <= U64_MAX
    ensures Wrap(n) == n
  {
  }

  lemma NoSum(calls: seq<Call>)
    ensures calls == [] ==> SumValues(calls) == 0
  {
  }

  // ------------------------------------------------------------ progress

  /** Stages a call still has to go through. */
  function Left(): Call -> nat { (c: Call) => 7 - c.pc.Stage() }

  /** One for a call about to compare against a value that is no longer there. */
  function Stale(s: Shared): Call -> nat {
    (c: Call) => if (c.pc.SwapMin? && c.pc.current != s.min) || (c.pc.SwapMax? && c.pc.current != s.max) then 1 else 0
  }

  function Energy(s: State): nat {
    Tally(s.calls, Left()) * (|s.calls| + 1) + Tally(s.calls, Stale(s.shared))
  }

  /** An unfinished call takes a step that does not fail spuriously. */
  ghost predicate Advances(s: State, t: State) {
    exists id :: 0 <= id < |s.calls| && !s.calls[id].pc.Finished? && Next(s, Step(id, false), t)
  }

  /** Such a step completes a stage, or was refused because another call had
      changed the word. */
  lemma StageOrRefresh(s: Shared, c: Call)
    requires |s.buckets| == 64 && !c.pc.Finished?
    ensures var (s', pc) := StepCall(s, c, false);
            || Left()(c.(pc := pc)) + 1 == Left()(c)
            || (&& s' == s && Left()(c.(pc := pc)) == Left()(c)
                && Stale(s)(c) == 1 && Stale(s)(c.(pc := pc)) == 0)
  {
  }

  lemma {:induction false} TallyBound(calls: seq<Call>, weight: Call -> nat, bound: nat)
    requires forall c :: weight(c) <= bound
    ensures Tally(calls, weight) <= |calls| * bound
  {
    if calls != [] {
      TallyBound(calls[..|calls| - 1], weight, bound);
      assert |calls| * bound == (|calls| - 1) * bound + bound;
    }
  }

  /** Stages left go down, or stay while a stale comparison is used up. */
  lemma TalliesDrop(s: State, t: State, id: nat)
    requires id < |s.calls| && !s.calls[id].pc.Finished? && Next(s, Step(id, false), t)
    ensures |t.calls| == |s.calls|
    ensures || Tally(t.calls, Left()) + 1 == Tally(s.calls, Left())
            || (&& Tally(t.calls, Left()) == Tally(s.calls, Left())
                && Tally(t.calls, Stale(t.shared)) + 1 == Tally(s.calls, Stale(s.shared)))
  {
    StageOrRefresh(s.shared, s.calls[id]);
    TallyUpdate(s.calls, id, t.calls[id], Left());
    if t.shared == s.shared {
      TallyUpdate(s.calls, id, t.calls[id], Stale(s.shared));
    }
  }

  lemma LexicographicDrop(left: nat, stale: nat, left': nat, stale': nat, n: nat)
    requires stale' <= n
    requires left' + 1 == left || (left' == left && stale' + 1 == stale)
    ensures left' * (n + 1) + stale' < left * (n + 1) + stale
  {
    if left' + 1 == left {
      assert left * (n + 1) == left' * (n + 1) + (n + 1);
    }
  }

  lemma EnergyDrops(s: State, t: State)
    requires Advances(s, t)
    ensures Energy(t) < Energy(s) && |t.calls| == |s.calls|
  {
    var id :| 0 <= id < |s.calls| && !s.calls[id].pc.Finished? && Next(s, Step(id, false), t);
    TalliesDrop(s, t, id);
    TallyBound(t.calls, Stale(t.shared), 1);
    LexicographicDrop(Tally(s.calls, Left()), Tally(s.calls, Stale(s.shared)),
                      Tally(t.calls, Left()), Tally(t.calls, Stale(t.shared)), |s.calls|);
  }

  /** The record loops cannot keep each other busy: with `n` calls and no spurious
      failure, every schedule is over after at most `7 n (n + 1) + n` steps. */
  lemma {:induction false} SchedulesAreBounded(trace: seq<State>)
    requires |trace| > 0 && forall i :: 0 <= i < |trace| - 1 ==> Advances(trace[i], trace[i + 1])
    ensures var n := |trace[0].calls|;
            |trace| - 1 <= Energy(trace[0]) <= 7 * n * (n + 1) + n
  {
    var n := |trace[0].calls|;
    TallyBound(trace[0].calls, Left(), 7);
    TallyBound(trace[0].calls, Stale(trace[0].shared), 1);
    Scaled(Tally(trace[0].calls, Left()), 7 * n, n + 1);
    if |trace| > 1 {
      assert Advances(trace[0], trace[0 + 1]);
      EnergyDrops(trace[0], trace[1]);
      var rest := trace[1..];
      forall i | 0 <= i < |rest| - 1
        ensures Advances(rest[i], rest[i + 1])
      {
        assert Advances(trace[i + 1], trace[(i + 1) + 1]);
      }
      SchedulesAreBounded(rest);
    }
  }

  lemma Scaled(a: nat, b: nat, w: nat)
    requires a <= b
    ensures a * w <= b * w
  {
  }

  /** A schedule that cannot be continued has finished every call. */
  lemma StuckMeansQuiet(s: State)
    requires |s.shared.buckets| == 64
    ensures Quiet(s) <==> !exists t :: Advances(s, t)
  {
    if !Quiet(s) {
      var id :| 0 <= id < |s.calls| && !s.calls[id].pc.Finished?;
      var (shared, pc) := StepCall(s.shared, s.calls[id], false);
      var t := State(shared, s.calls[id := s.calls[id].(pc := pc)]);
      assert Next(s, Step(id, false), t);
      assert Advances(s, t);
    }
  }
}
