/** The one-way-delay estimator of pkg/latency/owd_estimator.go, with exact factors. */
module DelayRules {
  import opened Wrappers

  /** Times and delays are in nanoseconds. */
  datatype Params = Params(fallFactor: real, riseFactor: real, spikeFactor: real, deltaMin: int, maxFactor: int,
                           resetReports: int, resetWait: int, longTermThreshold: int)

  /** Factors between 0 and 1. */
  ghost predicate Contracting(p: Params) {
    0.0 <= p.fallFactor <= 1.0 && 0.0 <= p.riseFactor <= 1.0 && 0.0 <= p.spikeFactor <= 1.0
  }

  /** Conversion to an integer drops the fraction. */
  function Truncated(x: real): int {
    if x >= 0.0 then x.Floor else -((-x).Floor)
  }

  /** A value that is moved towards another by a factor of their distance. */
  function Adapted(factor: real, from: int, to: int): int {
    from + Truncated(Part(factor, to - from))
  }

  function Part(factor: real, d: int): real {
    factor * (d as real)
  }

  /** `highStart` is when the first of `highCount` high deltas was seen. A spike of 0 is no spike. */
  datatype State = State(initialized: bool, lastSender: int, lastDelay: int, lastDelta: int, estimate: int,
                         longTerm: int, highCount: nat, highStart: Option<int>, spike: int)

  const INITIAL := State(false, 0, 0, 0, 0, 0, 0, None, 0)

  /** A report, and the two clock readings that are made while it is handled. */
  datatype Report = Report(sender: int, receiver: int, now: int, later: int) {
    function Delay(): int {
      receiver - sender
    }
  }

  function Calm(s: State): State {
    s.(highCount := 0, highStart := None, spike := 0)
  }

  function Restarted(s: State, delay: int): State {
    Calm(s).(estimate := delay, longTerm := 0)
  }

  /** A delta of the delay that is sharp against both the smallest that counts and the long term. */
  predicate High(p: Params, s: State, delay: int) {
    var delta := delay - s.estimate;
    delta > p.deltaMin && s.longTerm != 0 && delta > s.longTerm * p.maxFactor
  }

  function RaisedSpike(p: Params, s: State, delay: int): int {
    if s.spike == 0 then delay else Adapted(p.spikeFactor, s.spike, delay)
  }

  function HighStart(s: State, now: int): int {
    if s.highStart.Some? then s.highStart.value else now
  }

  predicate Persists(p: Params, s: State, r: Report) {
    s.highCount + 1 >= p.resetReports && r.later - HighStart(s, r.now) >= p.resetWait
  }

  /** What a delay does to the estimate, and whether it completes a step change. */
  function Weigh(p: Params, s: State, r: Report): (State, bool) {
    var delay := r.Delay();
    if High(p, s, delay) then
      var spike := RaisedSpike(p, s, delay);
      if Persists(p, s, r) then (Restarted(s, spike), true)
      else (s.(highCount := s.highCount + 1, highStart := Some(HighStart(s, r.now)), spike := spike), false)
    else if delay - s.estimate > p.deltaMin then (Calm(s), false)
    else
      var factor := if delay > s.estimate then p.riseFactor else p.fallFactor;
      (Calm(s).(estimate := Adapted(factor, s.estimate, delay)), false)
  }

  /** The weight of a delta in the long term: the time since the last report over the reset wait. */
  function LongTermFactor(p: Params, sinceLast: int): real
    requires p.resetWait != 0
  {
    var factor := sinceLast as real / p.resetWait as real;
    if factor < 1.0 then factor else 1.0
  }

  function LongTerm(p: Params, longTerm: int, delta: int, sinceLast: int): int
    requires p.resetWait != 0
  {
    var next := if delta >= p.longTermThreshold then longTerm
                else if longTerm == 0 then delta
                else Adapted(LongTermFactor(p, sinceLast), longTerm, delta);
    if next < 0 then 0 else next
  }

  function Step(p: Params, s: State, r: Report): (State, bool)
    requires p.resetWait != 0
  {
    var delay := r.Delay();
    if !s.initialized then
      (Restarted(s, delay).(initialized := true, lastSender := r.sender, lastDelay := delay), true)
    else
      var delta := delay - s.estimate;
      var (w, stepChange) := Weigh(p, s.(lastDelay := delay, lastDelta := delta), r);
      (w.(lastSender := r.sender, longTerm := LongTerm(p, w.longTerm, delta, r.sender - s.lastSender)), stepChange)
  }

  ghost function Run(p: Params, reports: seq<Report>): State
    requires p.resetWait != 0
  {
    if reports == [] then INITIAL
    else Step(p, Run(p, reports[..|reports| - 1]), reports[|reports| - 1]).0
  }

  lemma RunNext(p: Params, reports: seq<Report>, r: Report)
    requires p.resetWait != 0
    ensures Run(p, reports + [r]) == Step(p, Run(p, reports), r).0
    ensures Run(p, reports + [r]).initialized
  {
    assert (reports + [r])[..|reports|] == reports;
  }

  // The estimate stays among the delays that were observed.

  predicate Between(low: int, x: int, high: int) {
    low <= x <= high
  }

  /** A move by a factor of the distance stays on the way. */
  lemma AdaptedBetween(factor: real, from: int, to: int)
    requires 0.0 <= factor <= 1.0
    ensures from <= to ==> from <= Adapted(factor, from, to) <= to
    ensures to <= from ==> to <= Adapted(factor, from, to) <= from
  {
    hide Part, Truncated;
    var d := to - from;
    PartBetween(factor, d);
    TruncatedBetween(Part(factor, d), d);
  }

  lemma PartBetween(factor: real, d: int)
    requires 0.0 <= factor <= 1.0
    ensures 0 <= d ==> 0.0 <= Part(factor, d) <= d as real
    ensures d <= 0 ==> d as real <= Part(factor, d) <= 0.0
  {
    if 0 <= d {
      ProductBetween(factor, d as real);
    } else {
      ProductBetween(factor, -(d as real));
      Opposite(factor, d as real);
    }
  }

  lemma ProductBetween(factor: real, d: real)
    requires 0.0 <= factor <= 1.0 && 0.0 <= d
    ensures 0.0 <= factor * d <= d
  {
    NotNegative(factor, d);
    NotNegative(1.0 - factor, d);
    assert (1.0 - factor) * d == d - factor * d;
  }

  lemma NotNegative(x: real, y: real)
    requires 0.0 <= x && 0.0 <= y
    ensures 0.0 <= x * y
  {
  }

  lemma Opposite(x: real, y: real)
    ensures x * -y == -(x * y)
  {
  }

  lemma TruncatedBetween(x: real, n: int)
    requires (0.0 <= x <= n as real) || (n as real <= x <= 0.0)
    ensures 0 <= n ==> 0 <= Truncated(x) <= n
    ensures n <= 0 ==> n <= Truncated(x) <= 0
  {
  }

  /** No report has a delay outside these bounds. */
  ghost predicate DelaysBetween(low: int, reports: seq<Report>, high: int) {
    forall i :: 0 <= i < |reports| ==> Between(low, reports[i].Delay(), high)
  }

  ghost predicate Bounded(low: int, s: State, high: int) {
    Between(low, s.estimate, high) && (s.spike == 0 || Between(low, s.spike, high))
  }

  lemma WeighBounded(p: Params, s: State, r: Report, low: int, high: int)
    requires Contracting(p) && Bounded(low, s, high) && Between(low, r.Delay(), high)
    ensures Bounded(low, Weigh(p, s, r).0, high)
  {
    hide Adapted, High, Persists;
    var delay := r.Delay();
    AdaptedBetween(p.spikeFactor, s.spike, delay);
    AdaptedBetween(p.riseFactor, s.estimate, delay);
    AdaptedBetween(p.fallFactor, s.estimate, delay);
  }

  /** After any reports at all the estimate is between the smallest and the largest delay so far. */
  lemma {:induction false} RunBounded(p: Params, reports: seq<Report>, low: int, high: int)
    requires p.resetWait != 0 && Contracting(p) && reports != [] && DelaysBetween(low, reports, high)
    ensures Run(p, reports).initialized && Bounded(low, Run(p, reports), high)
  {
    hide Weigh, LongTerm;
    var before, r := reports[..|reports| - 1], reports[|reports| - 1];
    RunNext(p, before, r);
    assert before + [r] == reports;
    assert Between(low, r.Delay(), high);
    if before != [] {
      assert forall i :: 0 <= i < |before| ==> before[i] == reports[i];
      RunBounded(p, before, low, high);
      var s := Run(p, before);
      WeighBounded(p, s.(lastDelay := r.Delay(), lastDelta := r.Delay() - s.estimate), r, low, high);
    }
  }

  // How far each report moves the estimate and the long-term delta.

  /** `at` is where one gets from `from` by a factor of the way to `to`, short of it by less than one. */
  ghost predicate Moved(factor: real, from: int, to: int, at: int) {
    var x, n := factor * ((to - from) as real), (at - from) as real;
    if x >= 0.0 then n <= x < n + 1.0 else n - 1.0 < x <= n
  }

  lemma AdaptedMoves(factor: real, from: int, to: int)
    ensures Moved(factor, from, to, Adapted(factor, from, to))
  {
    hide Part;
    TruncatedShort(Part(factor, to - from));
    SamePart(factor, to - from);
  }

  lemma TruncatedShort(x: real)
    ensures var n := Truncated(x) as real; if x >= 0.0 then n <= x < n + 1.0 else n - 1.0 < x <= n
  {
  }

  lemma SamePart(factor: real, d: int)
    ensures Part(factor, d) == factor * (d as real)
  {
  }

  lemma NotFirst(p: Params, reports: seq<Report>)
    requires p.resetWait != 0 && reports != []
    ensures Run(p, reports).initialized && Run(p, reports).lastSender == reports[|reports| - 1].sender
  {
    hide Weigh, LongTerm;
    var before, r := reports[..|reports| - 1], reports[|reports| - 1];
    RunNext(p, before, r);
    assert before + [r] == reports;
  }

  /** The first report gives the estimate as it is, and counts as a step change. */
  lemma FirstReport(p: Params, r: Report)
    requires p.resetWait != 0
    ensures StepNext(p, [], r)
    ensures var s := Run(p, [r]); s.estimate == r.receiver - r.sender && s.longTerm == 0
  {
    RunNext(p, [], r);
    assert [] + [r] == [r];
  }

  /** Which deltas are high. */
  lemma HighIff(p: Params, reports: seq<Report>, r: Report)
    requires p.resetWait != 0
    ensures var s := Run(p, reports);
            var delta := r.receiver - r.sender - s.estimate;
            HighNext(p, reports, r) <==>
              reports != [] && delta > p.deltaMin && s.longTerm != 0 && delta > s.longTerm * p.maxFactor
  {
    hide Run;
  }

  /** A delta that is small moves the estimate, by the rise factor of the way up or by the fall factor of the way
      down; one that counts leaves the estimate where it is unless it completes a step change. */
  lemma EstimateMoves(p: Params, reports: seq<Report>, r: Report)
    requires p.resetWait != 0 && reports != []
    ensures var s, s' := Run(p, reports), Run(p, reports + [r]);
            var delay := r.receiver - r.sender;
            && (s.estimate < delay <= s.estimate + p.deltaMin ==>
                  Moved(p.riseFactor, s.estimate, delay, s'.estimate))
            && (delay <= s.estimate && delay <= s.estimate + p.deltaMin ==>
                  Moved(p.fallFactor, s.estimate, delay, s'.estimate))
            && (delay > s.estimate + p.deltaMin && !StepNext(p, reports, r) ==> s'.estimate == s.estimate)
            && (!HighNext(p, reports, r) ==> !StepNext(p, reports, r) && Streak(p, reports + [r]) == 0)
  {
    hide Run, LongTerm, Adapted, Moved, Persists, Streak;
    var s := Run(p, reports);
    NotFirst(p, reports);
    RunNext(p, reports, r);
    StreakNext(p, reports, r);
    AdaptedMoves(p.riseFactor, s.estimate, r.Delay());
    AdaptedMoves(p.fallFactor, s.estimate, r.Delay());
  }

  /** The part of the wait that went by since the last report, but no more than all of it. */
  ghost predicate Weight(p: Params, sinceLast: int, f: real)
    requires p.resetWait != 0
  {
    var part := sinceLast as real / p.resetWait as real;
    f <= part && f <= 1.0 && (f == part || f == 1.0)
  }

  /** The long-term delta ignores large deltas. It starts with the first delta after a step change, and moves
      to later ones by the part of the reset wait that went by since the last report. It stops at zero. */
  lemma LongTermMoves(p: Params, reports: seq<Report>, r: Report)
    requires p.resetWait != 0 && reports != []
    ensures var s, s' := Run(p, reports), Run(p, reports + [r]);
            var delta := r.receiver - r.sender - s.estimate;
            var was := if StepNext(p, reports, r) then 0 else s.longTerm;
            && (delta >= p.longTermThreshold ==> s'.longTerm == was)
            && (delta < p.longTermThreshold && was == 0 ==> s'.longTerm == if delta < 0 then 0 else delta)
            && (delta < p.longTermThreshold && was != 0 ==>
                  exists f: real, at: int :: Weight(p, r.sender - reports[|reports| - 1].sender, f)
                    && Moved(f, was, delta, at) && s'.longTerm == if at < 0 then 0 else at)
  {
    hide Run, Adapted, Moved, Persists, High, RaisedSpike, LongTermFactor;
    var s := Run(p, reports);
    LongTermNeverNegative(p, reports);
    NotFirst(p, reports);
    RunNext(p, reports, r);
    var was := if StepNext(p, reports, r) then 0 else s.longTerm;
    var sinceLast := r.sender - reports[|reports| - 1].sender;
    WeightIs(p, sinceLast);
    AdaptedMoves(LongTermFactor(p, sinceLast), was, r.Delay() - s.estimate);
  }

  lemma WeightIs(p: Params, sinceLast: int)
    requires p.resetWait != 0
    ensures Weight(p, sinceLast, LongTermFactor(p, sinceLast))
  {
  }

  /** The long-term delta is never negative. */
  lemma {:induction false} LongTermNeverNegative(p: Params, reports: seq<Report>)
    requires p.resetWait != 0
    ensures Run(p, reports).longTerm >= 0
  {
    hide Weigh, Adapted, LongTermFactor;
    if reports != [] {
      LongTermNeverNegative(p, reports[..|reports| - 1]);
    }
  }

  // A step change ends a streak of high deltas.

  /** Whether one more report has a high delta, or makes a step change, after the given ones. */
  ghost predicate HighNext(p: Params, reports: seq<Report>, r: Report)
    requires p.resetWait != 0
  {
    reports != [] && High(p, Run(p, reports), r.Delay())
  }

  ghost predicate StepNext(p: Params, reports: seq<Report>, r: Report)
    requires p.resetWait != 0
  {
    Step(p, Run(p, reports), r).1
  }

  /** How many of the last reports had a high delta, one after the other, since the last step change. */
  ghost function Streak(p: Params, reports: seq<Report>): (k: nat)
    requires p.resetWait != 0
    ensures reports == [] ==> k == 0
    ensures reports != [] ==> k < |reports|
  {
    if reports == [] then 0
    else
      var before, r := reports[..|reports| - 1], reports[|reports| - 1];
      if HighNext(p, before, r) && !StepNext(p, before, r) then Streak(p, before) + 1 else 0
  }

  /** The delays of a streak, each later one taken in by the spike factor. */
  ghost function Smoothed(factor: real, streak: seq<Report>): int {
    if streak == [] then 0
    else
      var before := Smoothed(factor, streak[..|streak| - 1]);
      var delay := streak[|streak| - 1].Delay();
      if before == 0 then delay else Adapted(factor, before, delay)
  }

  /** The first delay of a streak is taken as it is, each later one moves the result by the spike factor. */
  lemma SmoothedMoves(factor: real, streak: seq<Report>, r: Report)
    ensures Smoothed(factor, [r]) == r.receiver - r.sender
    ensures Smoothed(factor, streak) != 0 ==>
      Moved(factor, Smoothed(factor, streak), r.receiver - r.sender, Smoothed(factor, streak + [r]))
  {
    assert (streak + [r])[..|streak|] == streak && [r][..0] == [];
    AdaptedMoves(factor, Smoothed(factor, streak), r.Delay());
  }

  ghost function LastOf(reports: seq<Report>, k: nat): seq<Report>
    requires k <= |reports|
  {
    reports[|reports| - k..]
  }

  /** The counters say exactly what the streak is, and the estimate is what it was before the streak. */
  ghost predicate Follows(p: Params, reports: seq<Report>)
    requires p.resetWait != 0
  {
    var s, k := Run(p, reports), Streak(p, reports);
    && s.highCount == k
    && s.highStart == (if k == 0 then None else Some(LastOf(reports, k)[0].now))
    && s.spike == Smoothed(p.spikeFactor, LastOf(reports, k))
    && s.estimate == Run(p, reports[..|reports| - k]).estimate
  }

  lemma LastOfNext(factor: real, reports: seq<Report>, r: Report, k: nat)
    requires k <= |reports|
    ensures LastOf(reports + [r], k + 1) == LastOf(reports, k) + [r]
    ensures (reports + [r])[..|reports| - k] == reports[..|reports| - k]
    ensures Smoothed(factor, LastOf(reports + [r], k + 1)) ==
            var before := Smoothed(factor, LastOf(reports, k));
            if before == 0 then r.Delay() else Adapted(factor, before, r.Delay())
  {
    hide Adapted;
    var next := LastOf(reports, k) + [r];
    assert LastOf(reports + [r], k + 1) == next;
    assert next[..|next| - 1] == LastOf(reports, k);
  }

  lemma StreakNext(p: Params, reports: seq<Report>, r: Report)
    requires p.resetWait != 0
    ensures Streak(p, reports + [r])
         == if HighNext(p, reports, r) && !StepNext(p, reports, r) then Streak(p, reports) + 1 else 0
  {
    hide HighNext, StepNext;
    assert (reports + [r])[..|reports|] == reports;
  }

  lemma FollowsNext(p: Params, reports: seq<Report>, r: Report)
    requires p.resetWait != 0 && Follows(p, reports)
    ensures Follows(p, reports + [r])
  {
    hide Adapted, LongTerm, Persists, Run, Streak, Smoothed;
    var k := Streak(p, reports);
    RunNext(p, reports, r);
    StreakNext(p, reports, r);
    LastOfNext(p.spikeFactor, reports, r, k);
    var next := reports + [r];
    assert next[..|next|] == next;
    EmptyStreak(p.spikeFactor, next);
    if !HighNext(p, reports, r) {
      OnlyHighCounts(p, reports, r);
    }
  }

  lemma EmptyStreak(factor: real, reports: seq<Report>)
    ensures Smoothed(factor, LastOf(reports, 0)) == 0
  {
  }

  lemma OnlyHighCounts(p: Params, reports: seq<Report>, r: Report)
    requires p.resetWait != 0 && !HighNext(p, reports, r)
    ensures var s := Step(p, Run(p, reports), r).0; s.highCount == 0 && s.highStart == None && s.spike == 0
  {
    if reports != [] {
      assert reports == reports[..|reports| - 1] + [reports[|reports| - 1]];
      RunNext(p, reports[..|reports| - 1], reports[|reports| - 1]);
    }
  }

  lemma {:induction false} RunFollows(p: Params, reports: seq<Report>)
    requires p.resetWait != 0
    ensures Follows(p, reports)
  {
    if reports == [] {
    } else {
      var before, r := reports[..|reports| - 1], reports[|reports| - 1];
      RunFollows(p, before);
      FollowsNext(p, before, r);
      assert before + [r] == reports;
    }
  }

  /** After the first report, a step change is reported exactly when this report ends a streak of high
      deltas that is long enough, and long enough ago began. */
  lemma StepChangeIff(p: Params, reports: seq<Report>, r: Report)
    requires p.resetWait != 0 && reports != []
    ensures var k := Streak(p, reports) + 1;
            StepNext(p, reports, r) <==>
              && HighNext(p, reports, r) && k >= p.resetReports
              && r.later - LastOf(reports + [r], k)[0].now >= p.resetWait
  {
    hide Adapted, LongTerm, Smoothed, Streak, Run;
    RunFollows(p, reports);
    var k := Streak(p, reports);
    LastOfNext(p.spikeFactor, reports, r, k);
    RunNext(p, reports[..|reports| - 1], reports[|reports| - 1]);
    assert reports == reports[..|reports| - 1] + [reports[|reports| - 1]];
  }

  /** The reports of a streak all had a high delta, and none of them made a step change or moved the
      estimate. */
  lemma {:induction false} StreakStands(p: Params, reports: seq<Report>, i: nat)
    requires p.resetWait != 0 && |reports| - Streak(p, reports) <= i < |reports|
    ensures HighNext(p, reports[..i], reports[i]) && !StepNext(p, reports[..i], reports[i])
    ensures Run(p, reports[..i]).estimate == Run(p, reports).estimate
  {
    hide Run, HighNext, StepNext, Smoothed;
    var last := |reports| - 1;
    var before := reports[..last];
    if i < last {
      StreakStands(p, before, i);
      assert before[..i] == reports[..i] && before[i] == reports[i];
    }
    RunFollows(p, before);
    RunFollows(p, reports);
    StandsOne(p, before, reports[last]);
    assert before + [reports[last]] == reports;
  }

  lemma StandsOne(p: Params, reports: seq<Report>, r: Report)
    requires p.resetWait != 0 && HighNext(p, reports, r) && !StepNext(p, reports, r)
    ensures Run(p, reports + [r]).estimate == Run(p, reports).estimate
  {
    hide LongTerm, Adapted;
    RunNext(p, reports, r);
    RunNext(p, reports[..|reports| - 1], reports[|reports| - 1]);
    assert reports == reports[..|reports| - 1] + [reports[|reports| - 1]];
  }

  /** A step change moves the estimate to the smoothed delay of the streak it ends. */
  lemma StepChangeEstimate(p: Params, reports: seq<Report>, r: Report)
    requires p.resetWait != 0 && reports != [] && StepNext(p, reports, r)
    ensures var k := Streak(p, reports) + 1;
            Run(p, reports + [r]).estimate == Smoothed(p.spikeFactor, LastOf(reports + [r], k))
  {
    hide LongTerm, Adapted, Smoothed, Streak, Run, High, Persists;
    RunFollows(p, reports);
    LastOfNext(p.spikeFactor, reports, r, Streak(p, reports));
    RunNext(p, reports, r);
    RunNext(p, reports[..|reports| - 1], reports[|reports| - 1]);
    assert reports == reports[..|reports| - 1] + [reports[|reports| - 1]];
  }
}

module OneWayDelay {
  import opened Wrappers
  import opened DelayRules

  class OWDEstimator {
    const params: Params
    var initialized: bool
    var lastSenderClockTime: int
    var lastPropagationDelay: int
    var lastDelta: int
    var estimate: int
    var longTermDelta: int
    var highCount: nat
    var highStart: Option<int>
    var spike: int

    constructor (params: Params)
      ensures this.params == params && Current() == INITIAL
    {
      this.params := params;
      initialized, lastSenderClockTime, lastPropagationDelay, lastDelta, estimate := false, 0, 0, 0, 0;
      longTermDelta, highCount, highStart, spike := 0, 0, None, 0;
    }

    function Current(): State
      reads this
    {
      State(initialized, lastSenderClockTime, lastPropagationDelay, lastDelta, estimate, longTermDelta, highCount,
            highStart, spike)
    }

    method ResetDelta()
      modifies `highCount, `highStart, `spike
      ensures Current() == Calm(old(Current()))
    {
      highCount, highStart, spike := 0, None, 0;
    }

    method InitPropagationDelay(delay: int)
      modifies `estimate, `longTermDelta, `highCount, `highStart, `spike
      ensures Current() == Restarted(old(Current()), delay)
    {
      estimate := delay;
      longTermDelta := 0;
      ResetDelta();
    }

    /** Looks for a path change, that is, a rise of the delay that persists. */
    method CheckPathChange(r: Report) returns (stepChange: bool)
      requires lastPropagationDelay == r.Delay() && lastDelta == r.Delay() - estimate
      modifies `estimate, `longTermDelta, `highCount, `highStart, `spike
      ensures (Current(), stepChange) == Weigh(params, old(Current()), r)
    {
      hide Adapted;
      stepChange := false;
      if lastDelta > params.deltaMin {
        if longTermDelta != 0 && lastDelta > longTermDelta * params.maxFactor {
          highCount := highCount + 1;
          if highStart == None {
            highStart := Some(r.now);
          }
          if spike == 0 {
            spike := lastPropagationDelay;
          } else {
            spike := Adapted(params.spikeFactor, spike, lastPropagationDelay);
          }
          if highCount >= params.resetReports && r.later - highStart.value >= params.resetWait {
            stepChange := true;
            InitPropagationDelay(spike);
          }
        } else {
          ResetDelta();
        }
      } else {
        ResetDelta();
        var factor := params.fallFactor;
        if lastPropagationDelay > estimate {
          factor := params.riseFactor;
        }
        estimate := Adapted(factor, estimate, lastPropagationDelay);
      }
    }

    /** Takes in a report; answers the estimate, and whether it is a new one. */
    method Update(r: Report) returns (delay: int, stepChange: bool)
      requires params.resetWait != 0
      modifies this
      ensures (Current(), stepChange) == Step(params, old(Current()), r) && delay == estimate
    {
      hide Weigh, Adapted;
      lastPropagationDelay := r.receiver - r.sender;
      if !initialized {
        initialized := true;
        lastSenderClockTime := r.sender;
        InitPropagationDelay(lastPropagationDelay);
        return estimate, true;
      }
      lastDelta := lastPropagationDelay - estimate;
      stepChange := CheckPathChange(r);
      if lastDelta < params.longTermThreshold {
        if longTermDelta == 0 {
          longTermDelta := lastDelta;
        } else {
          var sinceLast := r.sender - lastSenderClockTime;
          longTermDelta := Adapted(LongTermFactor(params, sinceLast), longTermDelta, lastDelta);
        }
      }
      if longTermDelta < 0 {
        longTermDelta := 0;
      }
      lastSenderClockTime := r.sender;
      delay := estimate;
    }
  }
}
