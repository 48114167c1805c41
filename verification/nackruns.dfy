/** Whole runs of a NACK queue, on values: which pairs and which purges can go wrong on a queue that calls
    have built, and exactly when they do. */
module NackRuns {
  import opened Wrappers
  import opened Modular
  import opened NackPairs
  import opened NackRules

  /** The pairs that a round sends for these verdicts. */
  function PairsFor(q: seq<Entry>, verdicts: seq<Verdict>): seq<Pair>
    requires q != [] && |q| == |verdicts| && InRange(Numbers(q))
  {
    DueInRange(q, verdicts);
    Finish(EncodeAll(Numbers(q)[0], NumbersOf(q, verdicts, Due)))
  }

  lemma DueInRange(q: seq<Entry>, verdicts: seq<Verdict>)
    requires |q| == |verdicts| && InRange(Numbers(q))
    ensures InRange(NumbersOf(q, verdicts, Due))
  {
    NumbersWithin(q, verdicts, Due);
    var dues := NumbersOf(q, verdicts, Due);
    forall i | 0 <= i < |dues|
      ensures dues[i] < RANGE
    {
      assert dues[i] in Numbers(q);
    }
  }

  /** The pairs report the due numbers and no others. */
  ghost predicate Exact(q: seq<Entry>, verdicts: seq<Verdict>)
    requires q != [] && |q| == |verdicts| && InRange(Numbers(q))
  {
    forall s: nat | s < RANGE :: Reported(PairsFor(q, verdicts), s) <==> s in NumbersOf(q, verdicts, Due)
  }

  /** Whichever of its entries are due, a queue gets exact pairs if and only if each of its numbers is less
      than 65519 past the head. */
  lemma QueueExactIff(q: seq<Entry>)
    requires q != [] && InRange(Numbers(q))
    ensures (forall verdicts: seq<Verdict> | |verdicts| == |q| :: Exact(q, verdicts))
      <==> forall sn <- Numbers(q) :: sn < RANGE && Sub(RANGE, sn, Numbers(q)[0]) < RANGE - 17
  {
    hide Exact;
    if k :| 0 <= k < |q| && Sub(RANGE, Numbers(q)[k], Numbers(q)[0]) >= RANGE - 17 {
      FarIsLost(q, k);
    } else {
      forall verdicts: seq<Verdict> | |verdicts| == |q|
        ensures Exact(q, verdicts)
      {
        NearIsExact(q, verdicts);
      }
    }
  }

  lemma NearIsExact(q: seq<Entry>, verdicts: seq<Verdict>)
    requires q != [] && |q| == |verdicts| && InRange(Numbers(q))
    requires forall k | 0 <= k < |q| :: Sub(RANGE, Numbers(q)[k], Numbers(q)[0]) < RANGE - 17
    ensures Exact(q, verdicts)
  {
    hide Sub, EncodeAll, Finish, Reported, NumbersOf;
    var dues := NumbersOf(q, verdicts, Due);
    NumbersWithin(q, verdicts, Due);
    DueInRange(q, verdicts);
    if dues == [] {
      NothingReported(Numbers(q)[0]);
    } else {
      assert dues[0] in Numbers(q);
      forall s: nat | s < RANGE
        ensures Reported(PairsFor(q, verdicts), s) <==> s in dues
      {
        EncodeExact(Numbers(q)[0], dues, s);
      }
    }
  }

  lemma NothingReported(first: nat)
    requires first < RANGE
    ensures InRange([]) && Finish(EncodeAll(first, [])) == [] && forall s: nat :: !Reported([], s)
  {
  }

  /** Entry `k` alone is due. */
  function OnlyDue(n: nat, k: nat): (verdicts: seq<Verdict>)
    ensures |verdicts| == n
  {
    seq(n, i => if i == k then Due else Waiting)
  }

  lemma {:induction false} OnlyDueNumbers(q: seq<Entry>, k: nat)
    ensures NumbersOf(q, OnlyDue(|q|, k), Due) == if k < |q| then [q[k].seqNum] else []
  {
    if q != [] {
      OnlyDueNumbers(q[..|q| - 1], k);
      assert OnlyDue(|q|, k)[..|q| - 1] == OnlyDue(|q| - 1, k);
    }
  }

  /** A number that is due alone and too far past the head is not reported. */
  lemma FarIsLost(q: seq<Entry>, k: nat)
    requires q != [] && InRange(Numbers(q)) && k < |q|
    requires Sub(RANGE, Numbers(q)[k], Numbers(q)[0]) >= RANGE - 17
    ensures !Exact(q, OnlyDue(|q|, k))
  {
    hide Sub, EncodeAll, Finish, Reported, NumbersOf;
    OnlyDueNumbers(q, k);
    var dues := NumbersOf(q, OnlyDue(|q|, k), Due);
    assert dues == [Numbers(q)[k]] && dues[1..] == [];
    InactiveReportsLess(Numbers(q)[0], dues, dues[0]);
    assert dues[0] in dues;
  }

  /** A call on the queue, with what it reads of the clock. A range of pushes is its single pushes. */
  datatype Call = PushCall(sn: nat, at: int) | RemoveCall(sn: nat) | RoundCall(now: int, clocks: seq<int>, rtt: nat)

  function Called(p: Params, capacity: nat, q: seq<Entry>, c: Call): seq<Entry> {
    match c
    case PushCall(sn, at) => LastN(q + [Entry(sn, at, 0, at)], capacity)
    case RemoveCall(sn) => RemoveFirst(q, sn)
    case RoundCall(now, clocks, rtt) => if |clocks| == |q| then Purged(p, q, now, clocks, rtt) else q
  }

  /** The last reading of the clock, `t` having been the one before the call. */
  function ReadLast(t: int, c: Call): int {
    match c
    case PushCall(_, at) => at
    case RemoveCall(_) => t
    case RoundCall(now, clocks, _) => if clocks == [] then now else clocks[|clocks| - 1]
  }

  /** The clock does not go back, and a round reads it once for each entry. */
  ghost predicate Timely(q: seq<Entry>, t: int, c: Call) {
    match c
    case PushCall(_, at) => t <= at
    case RemoveCall(_) => true
    case RoundCall(now, clocks, _) =>
      && |clocks| == |q| && t <= now
      && (forall i | 0 <= i < |clocks| :: now <= clocks[i])
      && forall i, j | 0 <= i < j < |clocks| :: clocks[i] <= clocks[j]
  }

  /** The queue and the last reading of the clock after a run of calls on an empty queue. */
  function After(p: Params, capacity: nat, t: int, calls: seq<Call>): (seq<Entry>, int) {
    if calls == [] then ([], t)
    else
      var (q, t), c := After(p, capacity, t, calls[..|calls| - 1]), calls[|calls| - 1];
      (Called(p, capacity, q, c), ReadLast(t, c))
  }

  ghost predicate TimelyRun(p: Params, capacity: nat, t: int, calls: seq<Call>) {
    forall k | 0 <= k < |calls| ::
      Timely(After(p, capacity, t, calls[..k]).0, After(p, capacity, t, calls[..k]).1, calls[k])
  }

  /** Older than the lifetime, now and from now on. */
  predicate Past(p: Params, e: Entry, t: int) {
    t - e.bornAt > p.maxLifetime
  }

  /** Sent more often, or as often and no later. */
  predicate Ahead(e: Entry, f: Entry) {
    e.tries > f.tries || (e.tries == f.tries && e.lastNackedAt <= f.lastNackedAt)
  }

  /** How an entry stands to a later one for the same number. */
  predicate InStep(p: Params, e: Entry, f: Entry, t: int) {
    e.bornAt <= f.bornAt && (Past(p, e, t) || Ahead(e, f))
  }

  ghost predicate ReadBy(q: seq<Entry>, t: int) {
    forall i | 0 <= i < |q| :: q[i].bornAt <= t && q[i].lastNackedAt <= t
  }

  /** What holds of every queue that calls build. */
  ghost predicate Ordered(p: Params, q: seq<Entry>, t: int) {
    ReadBy(q, t) && forall i, j | 0 <= i < j < |q| && q[i].seqNum == q[j].seqNum :: InStep(p, q[i], q[j], t)
  }

  /** One look at both entries of a pair, the earlier one first. */
  lemma LookKeepsStep(p: Params, e: Entry, f: Entry, t: int, now: int, c: int, d: int, rtt: nat, t': int)
    requires InStep(p, e, f, t) && e.lastNackedAt <= t <= now <= c <= d <= t'
    ensures InStep(p, NackRules.After(p, e, now, c, rtt), NackRules.After(p, f, now, d, rtt), t')
  {
    hide RequiredInterval;
  }

  lemma PushKeepsOrder(p: Params, capacity: nat, q: seq<Entry>, t: int, sn: nat, at: int)
    requires Ordered(p, q, t) && t <= at
    ensures Ordered(p, LastN(q + [Entry(sn, at, 0, at)], capacity), at)
  {
    var more := q + [Entry(sn, at, 0, at)];
    assert Ordered(p, more, at) by {
      forall i, j | 0 <= i < j < |more| && more[i].seqNum == more[j].seqNum
        ensures InStep(p, more[i], more[j], at)
      {
        assert more[i] == q[i];
        if j < |q| {
          assert InStep(p, q[i], q[j], t);
        }
      }
    }
    if |more| > capacity {
      DropKeepsOrder(p, more, at, |more| - capacity);
    }
  }

  lemma DropKeepsOrder(p: Params, q: seq<Entry>, t: int, n: nat)
    requires Ordered(p, q, t) && n <= |q|
    ensures Ordered(p, q[n..], t)
  {
    hide InStep;
  }

  lemma CutKeepsOrder(p: Params, q: seq<Entry>, t: int, k: nat)
    requires Ordered(p, q, t) && k < |q|
    ensures Ordered(p, q[..k] + q[k + 1..], t)
  {
    hide InStep;
    var r := q[..k] + q[k + 1..];
    assert forall i | 0 <= i < |r| :: r[i] == q[if i < k then i else i + 1];
  }

  lemma {:induction false} RemovedByIndex(q: seq<Entry>, sn: nat)
    ensures RemoveFirst(q, sn) == q || exists k :: 0 <= k < |q| && RemoveFirst(q, sn) == q[..k] + q[k + 1..]
  {
    if q != [] {
      if q[0].seqNum == sn {
        assert RemoveFirst(q, sn) == q[..0] + q[0 + 1..];
      } else {
        RemovedByIndex(q[1..], sn);
        var r := RemoveFirst(q[1..], sn);
        if r == q[1..] {
          assert [q[0]] + q[1..] == q;
        } else {
          var k :| 0 <= k < |q[1..]| && r == q[1..][..k] + q[1..][k + 1..];
          OneFurther(q, k);
        }
      }
    }
  }

  lemma OneFurther(q: seq<Entry>, k: nat)
    requires k + 1 < |q|
    ensures [q[0]] + (q[1..][..k] + q[1..][k + 1..]) == q[..k + 1] + q[k + 1 + 1..]
  {
  }

  lemma RemoveKeepsOrder(p: Params, q: seq<Entry>, t: int, sn: nat)
    requires Ordered(p, q, t)
    ensures Ordered(p, RemoveFirst(q, sn), t)
  {
    hide Ordered;
    RemovedByIndex(q, sn);
    if RemoveFirst(q, sn) != q {
      var k :| 0 <= k < |q| && RemoveFirst(q, sn) == q[..k] + q[k + 1..];
      CutKeepsOrder(p, q, t, k);
    }
  }

  lemma {:induction false} RemoveEachKeepsOrder(p: Params, q: seq<Entry>, t: int, sns: seq<nat>)
    requires Ordered(p, q, t)
    ensures Ordered(p, RemoveEach(q, sns), t)
    decreases |sns|
  {
    hide Ordered;
    if sns != [] {
      RemoveKeepsOrder(p, q, t, sns[0]);
      RemoveEachKeepsOrder(p, RemoveFirst(q, sns[0]), t, sns[1..]);
    }
  }

  lemma LookedKeepsOrder(p: Params, q: seq<Entry>, t: int, now: int, clocks: seq<int>, rtt: nat)
    requires Ordered(p, q, t) && Timely(q, t, RoundCall(now, clocks, rtt))
    ensures Ordered(p, Looked(p, q, now, clocks, rtt), ReadLast(t, RoundCall(now, clocks, rtt)))
  {
    hide NackRules.After, InStep;
    var r, t' := Looked(p, q, now, clocks, rtt), ReadLast(t, RoundCall(now, clocks, rtt));
    assert forall i | 0 <= i < |q| :: now <= clocks[i] <= t';
    forall i | 0 <= i < |r|
      ensures r[i].bornAt <= t' && r[i].lastNackedAt <= t' && r[i].seqNum == q[i].seqNum
    {
      AfterLook(p, q[i], now, clocks[i], rtt);
    }
    forall i, j | 0 <= i < j < |r| && r[i].seqNum == r[j].seqNum
      ensures InStep(p, r[i], r[j], t')
    {
      assert InStep(p, q[i], q[j], t);
      LookKeepsStep(p, q[i], q[j], t, now, clocks[i], clocks[j], rtt, t');
    }
  }

  lemma AfterLook(p: Params, e: Entry, now: int, clock: int, rtt: nat)
    ensures var e' := NackRules.After(p, e, now, clock, rtt);
            && e'.seqNum == e.seqNum && e'.bornAt == e.bornAt
            && (e'.lastNackedAt == e.lastNackedAt || e'.lastNackedAt == now)
  {
  }

  lemma CallKeepsOrder(p: Params, capacity: nat, q: seq<Entry>, t: int, c: Call)
    requires Ordered(p, q, t) && Timely(q, t, c)
    ensures Ordered(p, Called(p, capacity, q, c), ReadLast(t, c))
  {
    hide Ordered, Looked, LastN;
    match c
    case PushCall(sn, at) => PushKeepsOrder(p, capacity, q, t, sn, at);
    case RemoveCall(sn) => RemoveKeepsOrder(p, q, t, sn);
    case RoundCall(now, clocks, rtt) =>
      LookedKeepsOrder(p, q, t, now, clocks, rtt);
      RemoveEachKeepsOrder(p, Looked(p, q, now, clocks, rtt), ReadLast(t, c),
                           NumbersOf(q, Verdicts(p, q, now, clocks, rtt), Expired));
  }

  /** Over any run with a clock that does not go back, of two entries for one number the earlier is sent
      first, until it is past its lifetime. */
  lemma {:induction false} RunOrdered(p: Params, capacity: nat, t: int, calls: seq<Call>)
    requires TimelyRun(p, capacity, t, calls)
    ensures var (q, t') := After(p, capacity, t, calls); Ordered(p, q, t')
  {
    if calls != [] {
      var before := calls[..|calls| - 1];
      assert forall k | 0 <= k < |before| :: before[..k] == calls[..k];
      hide Ordered, Called, ReadLast, Timely;
      RunOrdered(p, capacity, t, before);
      var (q, t') := After(p, capacity, t, before);
      CallKeepsOrder(p, capacity, q, t', calls[|calls| - 1]);
    }
  }

  /** The lifetime ends between the looks at two entries for one number: the earlier one is still alive
      when it is looked at, and the later one, younger though it is, no longer is. */
  ghost predicate Lapses(p: Params, q: seq<Entry>, clocks: seq<int>)
    requires |clocks| == |q|
  {
    exists i, j | 0 <= i < j < |q| && q[i].seqNum == q[j].seqNum :: LapsesAt(p, q[i], clocks[i], q[j], clocks[j])
  }

  predicate LapsesAt(p: Params, e: Entry, c: int, f: Entry, d: int) {
    e.tries < p.maxTries && !Past(p, e, c) && Past(p, f, d)
  }

  lemma ExpiredFirstIff(p: Params, q: seq<Entry>, t: int, now: int, clocks: seq<int>, rtt: nat)
    requires Ordered(p, q, t) && Timely(q, t, RoundCall(now, clocks, rtt))
    ensures ExpiredFirst(q, Verdicts(p, q, now, clocks, rtt)) <==> !Lapses(p, q, clocks)
  {
    hide RequiredInterval;
    var verdicts := Verdicts(p, q, now, clocks, rtt);
    forall i, j | 0 <= i < j < |q| && q[i].seqNum == q[j].seqNum
      ensures (verdicts[j] == Expired ==> verdicts[i] == Expired) <==> !LapsesAt(p, q[i], clocks[i], q[j], clocks[j])
    {
      assert InStep(p, q[i], q[j], t);
    }
  }

  /** On every queue that calls can build, with numbers repeated or not, the purge of a round removes exactly
      the expired entries, in their places, if and only if the lifetime of no entry ends between its look
      and an earlier one for the same number. */
  lemma RunPurgesIff(p: Params, capacity: nat, t: int, calls: seq<Call>, now: int, clocks: seq<int>, rtt: nat)
    requires TimelyRun(p, capacity, t, calls)
    requires Timely(After(p, capacity, t, calls).0, After(p, capacity, t, calls).1, RoundCall(now, clocks, rtt))
    ensures var q := After(p, capacity, t, calls).0;
            var verdicts, looked := Verdicts(p, q, now, clocks, rtt), Looked(p, q, now, clocks, rtt);
            && (RemoveEach(Placed(q), NumbersOf(q, verdicts, Expired)) == Unexpired(Placed(q), verdicts)
                <==> !Lapses(p, q, clocks))
            && (!Lapses(p, q, clocks) ==> Purged(p, q, now, clocks, rtt) == Unexpired(looked, verdicts))
  {
    hide Ordered, Timely, Lapses, ExpiredFirst, RemoveEach, NumbersOf, Unexpired, Verdicts, Placed;
    RunOrdered(p, capacity, t, calls);
    var (q, t') := After(p, capacity, t, calls);
    TimelyLooks(q, t', now, clocks, rtt);
    var verdicts, looked := Verdicts(p, q, now, clocks, rtt), Looked(p, q, now, clocks, rtt);
    ExpiredFirstIff(p, q, t', now, clocks, rtt);
    PurgeExactIff(q, verdicts);
    if !Lapses(p, q, clocks) {
      SameNumbers(p, q, now, clocks, rtt);
      NumbersOfSame(q, looked, verdicts, Expired);
      SameExpiredFirst(q, looked, verdicts);
      PurgeExact(looked, verdicts);
    }
  }

  lemma TimelyLooks(q: seq<Entry>, t: int, now: int, clocks: seq<int>, rtt: nat)
    requires Timely(q, t, RoundCall(now, clocks, rtt))
    ensures |clocks| == |q|
  {
  }

  lemma SameNumbers(p: Params, q: seq<Entry>, now: int, clocks: seq<int>, rtt: nat)
    requires |clocks| == |q|
    ensures Numbers(Looked(p, q, now, clocks, rtt)) == Numbers(q)
  {
    hide Judge;
  }

  lemma SameExpiredFirst(q: seq<Entry>, r: seq<Entry>, verdicts: seq<Verdict>)
    requires |q| == |r| == |verdicts| && Numbers(q) == Numbers(r) && ExpiredFirst(q, verdicts)
    ensures ExpiredFirst(r, verdicts)
  {
    assert forall i | 0 <= i < |q| :: q[i].seqNum == Numbers(q)[i] == Numbers(r)[i] == r[i].seqNum;
  }

  /** It does not end between them as long as a round gains no more time on its way from one entry to a
      later one for the same number than lies between their births. */
  lemma NoLapseWithin(p: Params, q: seq<Entry>, clocks: seq<int>)
    requires |clocks| == |q|
    requires forall i, j | 0 <= i < j < |q| && q[i].seqNum == q[j].seqNum ::
               clocks[j] - clocks[i] <= q[j].bornAt - q[i].bornAt
    ensures !Lapses(p, q, clocks)
  {
    forall i, j | 0 <= i < j < |q| && q[i].seqNum == q[j].seqNum
      ensures !LapsesAt(p, q[i], clocks[i], q[j], clocks[j])
    {
      assert clocks[j] - clocks[i] <= q[j].bornAt - q[i].bornAt;
    }
  }

  lemma AfterNext(p: Params, capacity: nat, t: int, calls: seq<Call>, c: Call)
    ensures var (q, t') := After(p, capacity, t, calls);
            After(p, capacity, t, calls + [c]) == (Called(p, capacity, q, c), ReadLast(t', c))
    ensures var (q, t') := After(p, capacity, t, calls);
            TimelyRun(p, capacity, t, calls) && Timely(q, t', c) ==> TimelyRun(p, capacity, t, calls + [c])
  {
    hide Called, ReadLast, Timely;
    var more := calls + [c];
    assert more[..|calls|] == calls;
    assert forall k | 0 <= k < |calls| :: more[..k] == calls[..k] && more[k] == calls[k];
  }

  lemma NoCalls(p: Params, capacity: nat, t: int)
    ensures After(p, capacity, t, []) == ([], t) && TimelyRun(p, capacity, t, [])
  {
  }

  /** A push into a queue with room. */
  lemma PushedBehind(p: Params, capacity: nat, t: int, calls: seq<Call>, sn: nat, at: int)
    requires TimelyRun(p, capacity, t, calls)
    requires |After(p, capacity, t, calls).0| < capacity && After(p, capacity, t, calls).1 <= at
    ensures After(p, capacity, t, calls + [PushCall(sn, at)])
         == (After(p, capacity, t, calls).0 + [Entry(sn, at, 0, at)], at)
    ensures TimelyRun(p, capacity, t, calls + [PushCall(sn, at)])
  {
    hide After, TimelyRun;
    AfterNext(p, capacity, t, calls, PushCall(sn, at));
  }

  lemma LastVerdict(q: seq<Entry>, verdicts: seq<Verdict>, e: Entry, v: Verdict)
    requires |q| == |verdicts|
    ensures NumbersOf(q + [e], verdicts + [v], Expired)
         == NumbersOf(q, verdicts, Expired) + if v == Expired then [e.seqNum] else []
    ensures NumbersOf(q + [e], verdicts + [v], Due) == NumbersOf(q, verdicts, Due) + if v == Due then [e.seqNum] else []
    ensures Unexpired(q + [e], verdicts + [v]) == Unexpired(q, verdicts) + if v != Expired then [e] else []
  {
    assert (q + [e])[..|q|] == q && (verdicts + [v])[..|q|] == verdicts;
  }

  const IMPATIENT := Params(10, 20, 1000, 100, (_: nat, _: nat) => 0)

  lemma SevenTwice()
    ensures var calls := [PushCall(7, 0)] + [PushCall(7, 1)];
            && After(IMPATIENT, 8, 0, calls) == ([Entry(7, 0, 0, 0)] + [Entry(7, 1, 0, 1)], 1)
            && TimelyRun(IMPATIENT, 8, 0, calls)
  {
    hide After, TimelyRun;
    NoCalls(IMPATIENT, 8, 0);
    PushedBehind(IMPATIENT, 8, 0, [], 7, 0);
    assert [] + [PushCall(7, 0)] == [PushCall(7, 0)] && [] + [Entry(7, 0, 0, 0)] == [Entry(7, 0, 0, 0)];
    PushedBehind(IMPATIENT, 8, 0, [PushCall(7, 0)], 7, 1);
  }

  lemma LapseRound(e: Entry, f: Entry)
    requires e == Entry(7, 0, 0, 0) && f == Entry(7, 1, 0, 1)
    ensures Purged(IMPATIENT, [e] + [f], 5, [100, 102], 30) == [f]
    ensures Unexpired(Looked(IMPATIENT, [e] + [f], 5, [100, 102], 30),
                      Verdicts(IMPATIENT, [e] + [f], 5, [100, 102], 30)) == [e]
  {
    LapseWitness(e, f);
    hide Verdicts, Looked, RemoveEach, NumbersOf, Unexpired;
    LastVerdict([], [], e, Waiting);
    LastVerdict([e], [Waiting], f, Expired);
    NoVerdicts();
    assert [] + [e] == [e] && [] + [Waiting] == [Waiting] && [e] + [] == [e];
    assert NumbersOf([e] + [f], [Waiting] + [Expired], Expired) == [7];
  }

  lemma NoVerdicts()
    ensures NumbersOf([], [], Expired) == [] && NumbersOf([], [], Due) == [] && Unexpired([], []) == []
  {
  }

  lemma LapseWitness(e: Entry, f: Entry)
    requires e == Entry(7, 0, 0, 0) && f == Entry(7, 1, 0, 1)
    ensures var q := [e] + [f];
            && Verdicts(IMPATIENT, q, 5, [100, 102], 30) == [Waiting] + [Expired]
            && Looked(IMPATIENT, q, 5, [100, 102], 30) == q
            && RemoveEach(q, [7]) == [f]
  {
    assert [7][1..] == [] && ([e] + [f])[1..] == [f];
  }

  /** Two pushes of number 7, one unit of time apart, and a round whose second look is two units after its
      first: the later entry has expired, and the earlier one goes. */
  lemma LapseReached()
    ensures var calls := [PushCall(7, 0)] + [PushCall(7, 1)];
            var (q, t) := After(IMPATIENT, 8, 0, calls);
            && TimelyRun(IMPATIENT, 8, 0, calls) && Timely(q, t, RoundCall(5, [100, 102], 30))
            && Purged(IMPATIENT, q, 5, [100, 102], 30) == [q[1]]
            && Unexpired(Looked(IMPATIENT, q, 5, [100, 102], 30), Verdicts(IMPATIENT, q, 5, [100, 102], 30)) == [q[0]]
  {
    hide After, TimelyRun, Purged, Unexpired, Looked, Verdicts;
    SevenTwice();
    LapseRound(Entry(7, 0, 0, 0), Entry(7, 1, 0, 1));
  }

  const PATIENT := Params(10, 20, 1000, 100_000, (_: nat, _: nat) => 500)

  function LateCalls(): seq<Call> {
    [PushCall(100, 0)] + [RoundCall(25, [25], 30)] + [PushCall(95, 30)]
  }

  lemma LatePush()
    ensures After(PATIENT, 8, 0, LateCalls()) == ([Entry(100, 0, 1, 25)] + [Entry(95, 30, 0, 30)], 30)
    ensures TimelyRun(PATIENT, 8, 0, LateCalls())
  {
    hide After, TimelyRun, Purged, Timely;
    var calls, born := [PushCall(100, 0)], Entry(100, 0, 0, 0);
    NoCalls(PATIENT, 8, 0);
    PushedBehind(PATIENT, 8, 0, [], 100, 0);
    assert [] + calls == calls && [] + [born] == [born];
    AfterNext(PATIENT, 8, 0, calls, RoundCall(25, [25], 30));
    FirstSend(born);
    PushedBehind(PATIENT, 8, 0, calls + [RoundCall(25, [25], 30)], 95, 30);
  }

  lemma LateRound(e: Entry, f: Entry)
    requires e == Entry(100, 0, 1, 25) && f == Entry(95, 30, 0, 30)
    ensures NumbersOf([e] + [f], Verdicts(PATIENT, [e] + [f], 55, [55, 55], 30), Due) == [95]
  {
    assert Verdicts(PATIENT, [e] + [f], 55, [55, 55], 30) == [Waiting] + [Due];
    hide Verdicts, NumbersOf;
    LastVerdict([], [], e, Waiting);
    LastVerdict([e], [Waiting], f, Due);
    NoVerdicts();
    assert [] + [e] == [e] && [] + [Waiting] == [Waiting];
  }

  /** Number 100 has just been sent when number 95 is pushed late: it is due at its time, and no pair
      reports it. */
  lemma FarReached()
    ensures var (q, t) := After(PATIENT, 8, 0, LateCalls());
            && TimelyRun(PATIENT, 8, 0, LateCalls()) && Timely(q, t, RoundCall(55, [55, 55], 30))
            && q != [] && InRange(Numbers(q))
            && NumbersOf(q, Verdicts(PATIENT, q, 55, [55, 55], 30), Due) == [95]
            && PairsFor(q, Verdicts(PATIENT, q, 55, [55, 55], 30)) == []
  {
    hide After, TimelyRun, LateCalls, NumbersOf, Verdicts, EncodeAll, Finish;
    LatePush();
    var e, f := Entry(100, 0, 1, 25), Entry(95, 30, 0, 30);
    LateRound(e, f);
    LateIsLost();
  }

  lemma FirstSend(e: Entry)
    requires e == Entry(100, 0, 0, 0)
    ensures Purged(PATIENT, [e], 25, [25], 30) == [Entry(100, 0, 1, 25)]
    ensures Timely([e], 0, RoundCall(25, [25], 30))
  {
    assert Verdicts(PATIENT, [e], 25, [25], 30) == [Due];
    assert Looked(PATIENT, [e], 25, [25], 30) == [Entry(100, 0, 1, 25)];
    LastVerdict([], [], e, Due);
    assert [] + [e] == [e] && [] + [Due] == [Due];
  }

  lemma LateIsLost()
    ensures Finish(EncodeAll(100, [95])) == []
  {
    hide WithBit;
    EncodeNext(100, [], 95);
    assert [] + [95] == [95];
  }
}
