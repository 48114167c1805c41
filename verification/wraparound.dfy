/** What the sequence-number extension of pkg/utils/wraparound.go promises, as signed distances between
    unbounded integers: no cycles, no half-range tests. */
module Unwrapping {
  import opened Wrappers
  import opened Modular

  /** `range` is 2^bits(T), `extRange` is 2^bits(ET). */
  datatype Params = Params(range: nat, extRange: nat, restartAllowed: bool) {
    ghost predicate Valid() {
      range >= 2 && range % 2 == 0 && 2 * range <= extRange
    }

    function Half(): nat { range / 2 }
  }

  /** The extended numbers of the first and of the highest value. */
  datatype Extent = Extent(start: nat, high: nat)

  datatype Update = Update(
    isUnhandled: bool, isRestart: bool, preExtendedStart: nat, preExtendedHighest: nat, extendedVal: nat)

  ghost predicate ValidExtent(p: Params, e: Extent) {
    && e.start < p.range
    && e.start <= e.high
    && e.high + p.range <= p.extRange  // room for the next value, whatever it is
  }

  /** How far `val` lies ahead of the value `ref`, taking the shorter way round. */
  function Distance(p: Params, val: nat, ref: nat): int
    requires val < p.range && ref < p.range
  {
    var gap := Sub(p.range, val, ref);
    if gap > p.Half() then gap - p.range else gap
  }

  /** The extent after one more value, and the report on it. A value below the start moves the start back
      if that is allowed, and moves all numbers up by one range if there is no room below the start. The
      report on an unhandled value says no more than that. */
  function Next(p: Params, e: Extent, val: nat, orderKnown: bool): (Extent, Update)
    requires p.Valid() && val < p.range && e.start <= e.high
  {
    var ref := Wire(p.range, e.high);
    var d := if orderKnown then Sub(p.range, val, ref) else Distance(p, val, ref);
    var ev := e.high + d;
    if d >= 0 then (Extent(e.start, ev), Update(false, false, 0, e.high, ev))
    else if ev >= e.start then (e, Update(false, false, 0, e.high, ev))
    else if !p.restartAllowed then (e, Update(true, false, 0, 0, 0))
    else
      var shift := if ev < 0 then p.range else 0;
      assert ev + shift >= 0;
      (Extent(ev + shift, e.high + shift), Update(false, true, e.start + shift, e.high + shift, ev + shift))
  }

  /** The extent and the report for the first value of all. */
  function First(p: Params, val: nat): (Extent, Update)
    requires val < p.extRange
  {
    (Extent(val, val), Update(false, false, 0, if val > 0 then val - 1 else p.extRange - 1, val))
  }

  /** The start that a restart replaced, put back. */
  function Rollback(p: Params, e: Extent, ev: nat): Extent
    requires p.Valid() && e.start < p.range
    requires WrapBack(p, e.start, Wire(p.range, ev)) ==> e.high >= p.range
  {
    Extent(Wire(p.range, ev), if WrapBack(p, e.start, Wire(p.range, ev)) then e.high - p.range else e.high)
  }

  /** Between the two values, taken in this order, the counter went through zero. */
  predicate WrapBack(p: Params, earlier: nat, later: nat) {
    later < p.Half() && earlier >= p.Half()
  }

  /** The highest value that an update raised, put back. */
  function Undo(e: Extent, u: Update): Extent {
    if u.isUnhandled || u.preExtendedHighest >= u.extendedVal then e else Extent(e.start, u.preExtendedHighest)
  }

  /** Undoing a restart by its own report restores the extent, whether or not the restart went through
      zero. */
  lemma RollbackRestores(p: Params, e: Extent, val: nat, orderKnown: bool)
    requires p.Valid() && ValidExtent(p, e) && val < p.range && Next(p, e, val, orderKnown).1.isRestart
    ensures var (e', u) := Next(p, e, val, orderKnown);
            && e'.start < p.range
            && (WrapBack(p, e'.start, Wire(p.range, u.preExtendedStart)) ==> e'.high >= p.range)
            && Rollback(p, e', u.preExtendedStart) == e
  {
    var e', u := Next(p, e, val, orderKnown).0, Next(p, e, val, orderKnown).1;
    NextBounds(p, e, val, orderKnown);
    WireSmall(p.range, e.start);
    WireTurn(p.range, e.start);
  }

  /** Undoing an update that raised the highest value restores the extent; undoing any other does
      nothing. */
  lemma UndoRestores(p: Params, e: Extent, val: nat, orderKnown: bool)
    requires p.Valid() && ValidExtent(p, e) && val < p.range
    ensures var (e', u) := Next(p, e, val, orderKnown);
            Undo(e', u) == if u.extendedVal > u.preExtendedHighest then e else e'
    ensures var (e', u) := Next(p, e, val, orderKnown);
            !u.isUnhandled && !u.isRestart && e' != e ==> Undo(e', u) == e
  {
    NextBounds(p, e, val, orderKnown);
  }

  lemma WireSmall(range: nat, x: nat)
    requires x < range
    ensures Wire(range, x) == x
  {
    Shift(range, 0, x);
  }

  lemma WireTurn(range: nat, x: int)
    requires 0 < range
    ensures Wire(range, x + range) == Wire(range, x)
  {
    Shift(range, x, range);
  }

  /** Every report is in range, and an out-of-order value never pushes the extent past the room it has. */
  lemma NextBounds(p: Params, e: Extent, val: nat, orderKnown: bool)
    requires p.Valid() && ValidExtent(p, e) && val < p.range
    ensures var (e', u) := Next(p, e, val, orderKnown);
            && e'.start <= e'.high < p.extRange
            && e'.start < p.range
            && (!u.isUnhandled ==> e'.start <= u.extendedVal <= e'.high)
            && (u.isRestart ==> u.extendedVal == e'.start && e.high - e.start < p.Half())
  {
  }

  /** An unbounded stream seen so far: its lowest and highest handled value. */
  datatype Seen = Seen(lo: int, hi: int)

  /** The extent numbers the stream: it spans the same distance, and its highest number has the residue
      of the highest value. */
  ghost predicate Numbers(p: Params, e: Extent, s: Seen)
    requires p.Valid()
  {
    && e.start < p.range
    && e.high - e.start == s.hi - s.lo >= 0
    && Wire(p.range, e.high) == Wire(p.range, s.hi)
  }

  /** A value that an update can tell from its residue: less than half a range below the highest one and
      at most half a range above; or up to a whole range above when the order is known. */
  predicate Near(p: Params, s: Seen, n: int, orderKnown: bool) {
    if orderKnown then s.hi <= n < s.hi + p.range else s.hi - p.range / 2 < n <= s.hi + p.range / 2
  }

  function SeenNext(p: Params, s: Seen, n: int): Seen {
    Seen(if n < s.lo && p.restartAllowed then n else s.lo, if n > s.hi then n else s.hi)
  }

  /** What one update says about the unbounded value `n` behind `Wire(n)`. */
  ghost predicate Faithful(p: Params, e: Extent, s: Seen, n: int, e': Extent, u: Update) {
    // Below the lowest value so far: a restart, or unhandled when there are no restarts.
    && u.isRestart == (n < s.lo && p.restartAllowed)
    && u.isUnhandled == (n < s.lo && !p.restartAllowed)
    && (u.isUnhandled ==> e' == e)
    && (!u.isUnhandled ==>
      // The distance to the highest number is that to the highest value.
      && e'.high - u.extendedVal == SeenNext(p, s, n).hi - n
      && e'.start <= u.extendedVal <= e'.high)
    // Numbers shift, by one range, only in a restart that finds no room below zero.
    && (var shift := if u.isRestart && e.high + n - s.hi < 0 then p.range else 0;
        && e'.high == e.high + shift + SeenNext(p, s, n).hi - s.hi
        && (!u.isUnhandled ==> u.preExtendedHighest == e.high + shift)
        && (u.isRestart ==> u.preExtendedStart == e.start + shift && u.extendedVal == e'.start))
  }

  lemma NextFaithful(p: Params, e: Extent, s: Seen, n: int, orderKnown: bool)
    requires p.Valid() && Numbers(p, e, s) && Near(p, s, n, orderKnown)
    ensures var (e', u) := Next(p, e, Wire(p.range, n), orderKnown);
            Faithful(p, e, s, n, e', u) && Numbers(p, e', SeenNext(p, s, n))
  {
    hide Wire;
    WireSub(p.range, n, s.hi);
    WireTurn(p.range, e.high);
    if n > s.hi {
      WireShift(p.range, e.high, n - s.hi);
      WireShift(p.range, s.hi, n - s.hi);
    }
  }

  /** The report on the first value: it is handled, is no restart, and is one step from what it says came
      before. */
  predicate FirstReport(p: Params, val: nat, u: Update) {
    && !u.isUnhandled && !u.isRestart && u.extendedVal == val
    && val < p.extRange && u.preExtendedHighest < p.extRange
    && Sub(p.extRange, u.extendedVal, u.preExtendedHighest) == 1
  }

  lemma FirstNumbers(p: Params, n: int)
    requires p.Valid()
    ensures var (e, u) := First(p, Wire(p.range, n));
            && Numbers(p, e, Seen(n, n)) && e.start == e.high == Wire(p.range, n)
            && FirstReport(p, Wire(p.range, n), u)
  {
    WireSmall(p.range, Wire(p.range, n));
  }

  /** A value of the stream, and whether its order is known. */
  datatype Arrival = Arrival(n: int, orderKnown: bool)

  function SeenRun(p: Params, s: Seen, ns: seq<Arrival>): Seen {
    if ns == [] then s else SeenNext(p, SeenRun(p, s, ns[..|ns| - 1]), ns[|ns| - 1].n)
  }

  function ExtentRun(p: Params, e: Extent, ns: seq<Arrival>): (r: Extent)
    requires p.Valid() && e.start <= e.high
    ensures r.start <= r.high
  {
    if ns == [] then e
    else
      var a := ns[|ns| - 1];
      Next(p, ExtentRun(p, e, ns[..|ns| - 1]), Wire(p.range, a.n), a.orderKnown).0
  }

  ghost predicate NearRun(p: Params, s: Seen, ns: seq<Arrival>) {
    forall k | 0 <= k < |ns| :: Near(p, SeenRun(p, s, ns[..k]), ns[k].n, ns[k].orderKnown)
  }

  /** Over any stream whose values stay near the highest one, the extent keeps numbering the stream, and
      every report is faithful. */
  lemma {:induction false} RunFaithful(p: Params, e: Extent, s: Seen, ns: seq<Arrival>)
    requires p.Valid() && Numbers(p, e, s) && NearRun(p, s, ns)
    ensures Numbers(p, ExtentRun(p, e, ns), SeenRun(p, s, ns))
    ensures forall k | 0 <= k < |ns| :: ReportFaithful(p, e, s, ns, k)
  {
    if ns != [] {
      hide Next, Faithful, SeenNext, Numbers, Near;
      var before, a := ns[..|ns| - 1], ns[|ns| - 1];
      assert forall k | 0 <= k < |before| :: before[..k] == ns[..k];
      RunFaithful(p, e, s, before);
      NextFaithful(p, ExtentRun(p, e, before), SeenRun(p, s, before), a.n, a.orderKnown);
      forall k | 0 <= k < |ns|
        ensures ReportFaithful(p, e, s, ns, k)
      {
        if k < |before| {
          assert ReportFaithful(p, e, s, before, k);
        }
      }
    }
  }

  /** Over any stream from its first value on: the first report is that of a first value, and all others are
      faithful. */
  lemma FreshRunFaithful(p: Params, n: int, ns: seq<Arrival>)
    requires p.Valid() && NearRun(p, Seen(n, n), ns)
    ensures var (e, u) := First(p, Wire(p.range, n));
            && FirstReport(p, Wire(p.range, n), u) && e.start == e.high == Wire(p.range, n)
            && Numbers(p, ExtentRun(p, e, ns), SeenRun(p, Seen(n, n), ns))
            && forall k | 0 <= k < |ns| :: ReportFaithful(p, e, Seen(n, n), ns, k)
  {
    FirstNumbers(p, n);
    RunFaithful(p, First(p, Wire(p.range, n)).0, Seen(n, n), ns);
  }

  /** Report number `k` of the run is faithful to the stream up to there. */
  ghost predicate ReportFaithful(p: Params, e: Extent, s: Seen, ns: seq<Arrival>, k: nat)
    requires p.Valid() && e.start <= e.high && k < |ns|
  {
    var e0, s0 := ExtentRun(p, e, ns[..k]), SeenRun(p, s, ns[..k]);
    var (e', u) := Next(p, e0, Wire(p.range, ns[k].n), ns[k].orderKnown);
    Faithful(p, e0, s0, ns[k].n, e', u)
  }

  /** The lowest and highest value of a run in which every value is handled are those of the stream. */
  lemma {:induction false} SeenIsExtreme(p: Params, s: Seen, ns: seq<Arrival>)
    requires p.restartAllowed && s.lo <= s.hi
    ensures var r := SeenRun(p, s, ns);
            && r.lo <= s.lo && s.hi <= r.hi
            && (forall a <- ns :: r.lo <= a.n <= r.hi)
            && (r.lo == s.lo || exists a <- ns :: a.n == r.lo)
            && (r.hi == s.hi || exists a <- ns :: a.n == r.hi)
  {
    if ns != [] {
      var before, a := ns[..|ns| - 1], ns[|ns| - 1];
      SeenIsExtreme(p, s, before);
      assert ns == before + [a];
    }
  }
}

/** The sequence-number extension itself, with its cycles and its half-range tests. */
module WrapAround {
  import opened Modular
  import opened Unwrapping

  /** The cycle count below the highest number is none, or at least one range; below two ranges it is
      known. */
  lemma CycleCases(range: nat, high: nat)
    requires 0 < range
    ensures high < range ==> Wire(range, high) == high
    ensures range <= high ==> high - Wire(range, high) >= range
    ensures range <= high < 2 * range ==> Wire(range, high) == high - range
  {
    if high < range {
      WireSmall(range, high);
    } else {
      MulAtLeast(range, high / range);
      if high < 2 * range {
        WireTurn(range, high - range);
        WireSmall(range, high - range);
      }
    }
  }

  /** What the tests on residues say about a value that is `back` behind the highest number. */
  lemma LateCases(p: Params, start: nat, high: nat, val: nat, back: nat)
    requires p.Valid() && start < p.range && start <= high && val < p.range
    requires 0 < back < p.range / 2 && Sub(p.range, val, Wire(p.range, high)) == p.range - back
    ensures var highest := Wire(p.range, high);
            var cycles := high - highest;
            && cycles >= 0
            && WrapBack(p, val, highest) == (highest < back)
            && val == (if highest < back then highest - back + p.range else highest - back)
            && (high - start >= p.range / 2 && highest < back ==> cycles >= p.range)
            && (high - start < p.range / 2 ==>
              && (Sub(p.range, val, start) > p.range / 2) == (high - start < back)
              && (high - start < back && highest < back && high >= back ==> cycles == p.range)
              && (high - start < back && highest < back && high < back ==> cycles == 0 && val > start)
              && (high - start < back && highest >= back ==> cycles == 0 && val < start)
              && (high - start < back && high >= back ==> val < start)
              && (high - start >= back && highest < back ==> cycles >= p.range))
  {
    CycleCases(p.range, high);
  }

  lemma InOrderNext(p: Params, e: Extent, val: nat, orderKnown: bool)
    requires p.Valid() && e.start <= e.high && val < p.range
    requires orderKnown || Sub(p.range, val, Wire(p.range, e.high)) <= p.range / 2
    ensures var high := e.high + Sub(p.range, val, Wire(p.range, e.high));
            && Next(p, e, val, orderKnown) == (Extent(e.start, high), Update(false, false, 0, e.high, high))
            && Wire(p.range, high) == val
  {
    Shift(p.range, e.high, Sub(p.range, val, Wire(p.range, e.high)));
  }

  /** The promised outcome for such a value. */
  lemma LateNext(p: Params, e: Extent, val: nat, back: nat)
    requires p.Valid() && e.start < p.range && e.start <= e.high && val < p.range
    requires 0 < back < p.range / 2 && Sub(p.range, val, Wire(p.range, e.high)) == p.range - back
    ensures Next(p, e, val, false) ==
      if e.high - back >= e.start then (e, Update(false, false, 0, e.high, e.high - back))
      else if !p.restartAllowed then (e, Update(true, false, 0, 0, 0))
      else if e.high < back then
        (Extent(val, e.high + p.range), Update(false, true, e.start + p.range, e.high + p.range, val))
      else (Extent(val, e.high), Update(false, true, e.start, e.high, val))
  {
    LateCases(p, e.start, e.high, val, back);
  }

  /** The tests that are made on such a value, and the number it gets if it is not below the start. */
  lemma LateTests(p: Params, start: nat, high: nat, val: nat, back: nat)
    requires p.Valid() && start < p.range && start <= high && high + p.range <= p.extRange && val < p.range
    requires 0 < back < p.range / 2 && Sub(p.range, val, Wire(p.range, high)) == p.range - back
    ensures Plus(p.extRange, Sub(p.extRange, high, start), 1) > p.range / 2 <==> high - start >= p.range / 2
    ensures high - start < p.range / 2 ==> (Sub(p.range, val, start) > p.range / 2 <==> high - start < back)
    ensures high - start >= back ==> LateNumber(p, high - Wire(p.range, high), val, Wire(p.range, high)) == high - back
  {
    hide Wire;
    LateCases(p, start, high, val, back);
  }

  function LateNumber(p: Params, cycles: int, val: nat, highest: nat): int {
    (if WrapBack(p, val, highest) then cycles - p.range else cycles) + val
  }

  class WrapAround {
    const params: Params
    var initialized: bool
    var start: nat
    var highest: nat
    var cycles: nat
    var extendedHighest: nat

    /** The fields agree. */
    ghost predicate Consistent()
      reads this
    {
      && params.Valid()
      && start < params.range && highest < params.range
      && extendedHighest == cycles + highest < params.extRange
      && highest == Wire(params.range, extendedHighest)
    }

    /** The numbers are in order, and there is room in the extended type for the next value. */
    ghost predicate Ordered()
      reads this
    {
      && Consistent()
      && start <= extendedHighest && extendedHighest + params.range <= params.extRange
      && (!initialized ==> cycles == 0)
    }

    ghost function Abs(): Extent
      reads this
    {
      Extent(start, extendedHighest)
    }

    constructor (params: Params)
      requires params.Valid()
      ensures Ordered() && !initialized && this.params == params
    {
      this.params := params;
      initialized, start, highest, cycles, extendedHighest := false, 0, 0, 0, 0;
      new;
      WireSmall(params.range, 0);
    }

    method UpdateExtendedHighest()
      requires cycles < params.extRange && highest < params.extRange
      modifies `extendedHighest
      ensures extendedHighest == GetExtended(cycles, highest)
    {
      extendedHighest := GetExtended(cycles, highest);
    }

    function GetExtended(cycles: nat, val: nat): nat
      requires cycles < params.extRange && val < params.extRange
    {
      Plus(params.extRange, cycles, val)
    }

    method UpdateWithOrderKnown(val: nat, orderKnown: bool) returns (result: Update)
      requires Ordered() && val < params.range
      modifies this
      ensures initialized && Consistent()
      ensures !old(initialized) ==>
        && (Abs(), result) == First(params, val) && start == extendedHighest == val
        && !result.isUnhandled && !result.isRestart && result.extendedVal == val
        && result.preExtendedHighest < params.extRange
        && Sub(params.extRange, result.extendedVal, result.preExtendedHighest) == 1
      ensures old(initialized) ==> Abs() == Next(params, old(Abs()), val, orderKnown).0
      ensures old(initialized) ==> var u := Next(params, old(Abs()), val, orderKnown).1;
        (result.isUnhandled <==> u.isUnhandled) && (!u.isUnhandled ==> result == u)
    {
      hide Wire, Next;
      result := Update(false, false, 0, 0, 0);
      if !initialized {
        result := result.(preExtendedHighest := Sub(params.extRange, val, 1), extendedVal := val);
        start := val;
        highest := val;
        UpdateExtendedHighest();
        initialized := true;
        WireSmall(params.range, val);
        return;
      }
      if !orderKnown {
        var gap := Sub(params.range, val, highest);
        if gap > params.range / 2 {
          result := MaybeAdjustStart(val);
          return;
        }
      }
      InOrderNext(params, Abs(), val, orderKnown);
      result := result.(preExtendedHighest := extendedHighest);
      if val < highest {
        cycles := Plus(params.extRange, cycles, params.range);
      }
      highest := val;
      UpdateExtendedHighest();
      result := result.(extendedVal := extendedHighest);
    }

    /** Makes `val`, which is below the start, the new start. Answers the replaced start and the cycles of
        the new one. */
    method MoveStart(val: nat, ghost back: nat) returns (preStart: nat, cycles: nat)
      requires Ordered() && val < params.range && 0 < back < params.range / 2
      requires Sub(params.range, val, highest) == params.range - back
      requires extendedHighest - start < back
      modifies `start, `cycles, `extendedHighest
      ensures cycles == 0 && extendedHighest == this.cycles + highest && start == val
      ensures var shift := if old(extendedHighest) < back then params.range else 0;
              preStart == old(start) + shift && extendedHighest == old(extendedHighest) + shift
    {
      hide Wire;
      LateCases(params, start, extendedHighest, val, back);
      cycles := this.cycles;
      preStart := if val > start then Plus(params.extRange, params.range, start) else start;
      if WrapBack(params, val, highest) {
        this.cycles := params.range;
        UpdateExtendedHighest();
        cycles := 0;
      }
      start := val;
    }

    method MaybeAdjustStart(val: nat) returns (result: Update)
      requires Ordered() && initialized && val < params.range
      requires Sub(params.range, val, highest) > params.range / 2
      modifies `start, `cycles, `extendedHighest
      ensures Consistent()
      ensures Abs() == Next(params, old(Abs()), val, false).0
      ensures var u := Next(params, old(Abs()), val, false).1;
              (result.isUnhandled <==> u.isUnhandled) && (!u.isUnhandled ==> result == u)
    {
      hide Wire, Next, WrapBack;
      ghost var back := params.range - Sub(params.range, val, highest);
      NextBounds(params, Abs(), val, false);
      LateNext(params, Abs(), val, back);
      LateTests(params, start, extendedHighest, val, back);
      WireTurn(params.range, extendedHighest);
      var half := params.range / 2;
      var cycles := this.cycles;
      var totalNum := Plus(params.extRange, Sub(params.extRange, extendedHighest, start), 1);
      if totalNum > half {
        if WrapBack(params, val, highest) {
          cycles := Sub(params.extRange, cycles, params.range);
        }
        return Update(false, false, 0, extendedHighest, GetExtended(cycles, val));
      }
      var isRestart, isUnhandled, preStart := false, false, 0;
      if Sub(params.range, val, start) > half {
        if params.restartAllowed {
          isRestart := true;
          preStart, cycles := MoveStart(val, back);
        } else {
          isUnhandled := true;
        }
      } else {
        if WrapBack(params, val, highest) {
          cycles := Sub(params.extRange, cycles, params.range);
        }
      }
      return Update(isUnhandled, isRestart, preStart, extendedHighest, GetExtended(cycles, val));
    }

    method RollbackRestart(ev: nat)
      requires Consistent() && ev < params.extRange
      requires WrapBack(params, start, Wire(params.range, ev)) ==> params.range <= cycles
      modifies `start, `cycles, `extendedHighest
      ensures Consistent() && Abs() == Rollback(params, old(Abs()), ev)
      ensures start == Wire(params.range, ev)
      ensures extendedHighest == old(extendedHighest) -
        if Wire(params.range, ev) < params.range / 2 <= old(start) then params.range else 0
    {
      hide Wire;
      if WrapBack(params, start, Wire(params.range, ev)) {
        WireTurn(params.range, extendedHighest - params.range);
        cycles := Sub(params.extRange, cycles, params.range);
        UpdateExtendedHighest();
      }
      start := Wire(params.range, ev);
    }

    method UndoUpdate(result: Update)
      requires Consistent() && result.preExtendedHighest < params.extRange
      modifies `highest, `cycles, `extendedHighest
      ensures Consistent()
      ensures Abs() == if initialized then Undo(old(Abs()), result) else old(Abs())
      ensures extendedHighest ==
        if initialized && !result.isUnhandled && result.preExtendedHighest < result.extendedVal
        then result.preExtendedHighest else old(extendedHighest)
    {
      if !initialized || result.isUnhandled || result.preExtendedHighest >= result.extendedVal {
        return;
      }
      ResetHighest(result.preExtendedHighest);
    }

    method ResetHighest(ev: nat)
      requires params.Valid() && start < params.range && ev < params.extRange
      modifies `highest, `cycles, `extendedHighest
      ensures Consistent() && extendedHighest == ev
    {
      hide Wire;
      WireAtMost(params.range, ev);
      highest := Wire(params.range, ev);
      // ev & ^(fullRange - 1)
      cycles := ev - Wire(params.range, ev);
      UpdateExtendedHighest();
    }
  }
}
