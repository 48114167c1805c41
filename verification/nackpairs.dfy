/** The generic NACK pairs of section 6.2.1 of RFC 4585, and the encoder in pkg/nack/nack.go that packs
    lost sequence numbers into them. */
module NackPairs {
  import opened BitMask
  import opened Modular
  import opened Wrappers

  const RANGE: nat := 0x1_0000

  /** A lost packet, and a mask: bit k says that packet number packetId + k + 1 is lost too. */
  datatype Pair = Pair(packetId: nat, lostPackets: bv16)

  function WithBit(mask: bv16, k: nat): bv16 {
    mask | One(k)
  }

  /** The pair reports `sn` as lost. */
  predicate Reports(p: Pair, sn: nat) {
    && p.packetId < RANGE && sn < RANGE
    && var d := Sub(RANGE, sn, p.packetId);
    d == 0 || (d <= 16 && Bit(p.lostPackets, d - 1))
  }

  /** As the standard has it: a pair reports its packet number, and for each set bit of the mask, from the lowest
      on, the number that is one further. */
  lemma ReportsIff(p: Pair, sn: nat)
    requires p.packetId < RANGE && sn < RANGE
    ensures Reports(p, sn) <==> sn == p.packetId || exists k: nat :: FromBit(p, k, sn)
  {
    hide Bit, Shifted;
    var d := Sub(RANGE, sn, p.packetId);
    if Reports(p, sn) && d > 0 {
      BitShifts(p.lostPackets, d - 1);
      assert FromBit(p, d - 1, sn);
    }
    if k: nat :| FromBit(p, k, sn) {
      BitShifts(p.lostPackets, k);
      assert d == k + 1;
    }
  }

  /** Bit k of the mask is set, and `sn` is k + 1 past the packet number, the numbers wrapping at 2^16. */
  predicate FromBit(p: Pair, k: nat, sn: nat) {
    && k < 16 && Shifted(p.lostPackets, k)
    && (sn == p.packetId + k + 1 || sn + 0x1_0000 == p.packetId + k + 1)
  }

  predicate Reported(ps: seq<Pair>, sn: nat) {
    exists p <- ps :: Reports(p, sn)
  }

  /** The encoder between two numbers: pairs done, and the pair being filled, if one is active. */
  datatype Encoder = Encoder(baseSN: nat, np: Pair, active: bool, done: seq<Pair>)

  /** The base is set far back to get the first pair. */
  function Start(first: nat): Encoder
    requires first < RANGE
  {
    Encoder(Sub(RANGE, first, 17), Pair(0, 0), false, [])
  }

  function Encode(e: Encoder, sn: nat): (r: Encoder)
    requires e.baseSN < RANGE && sn < RANGE
    ensures r.baseSN < RANGE
  {
    var d := Sub(RANGE, sn, e.baseSN);
    if d > 16 then Encoder(sn, Pair(sn, 0), true, Finish(e))
    else e.(np := e.np.(lostPackets := WithBit(e.np.lostPackets, Sub(RANGE, d, 1))))
  }

  function Finish(e: Encoder): seq<Pair> {
    if e.active then e.done + [e.np] else e.done
  }

  predicate InRange(sns: seq<nat>) {
    forall i | 0 <= i < |sns| :: sns[i] < RANGE
  }

  function EncodeAll(first: nat, sns: seq<nat>): (e: Encoder)
    requires first < RANGE && InRange(sns)
    ensures e.baseSN < RANGE
  {
    if sns == [] then Start(first) else Encode(EncodeAll(first, sns[..|sns| - 1]), sns[|sns| - 1])
  }

  lemma EncodeNext(first: nat, sns: seq<nat>, sn: nat)
    requires first < RANGE && InRange(sns) && sn < RANGE
    ensures InRange(sns + [sn]) && EncodeAll(first, sns + [sn]) == Encode(EncodeAll(first, sns), sn)
  {
    assert (sns + [sn])[..|sns|] == sns;
  }

  lemma SetBit(mask: bv16, k: nat, j: nat)
    requires k < 16 && j < 16
    ensures Bit(WithBit(mask, k), j) <==> j == k || Bit(mask, j)
  {
    if j == k {
      SetItself(mask, k);
    } else {
      SetOther(mask, k, j);
    }
  }

  lemma SetItself(mask: bv16, k: nat)
    requires k < 16
    ensures (mask | One(k)) & One(k) != 0
  {
  }

  lemma SetOther(mask: bv16, k: nat, j: nat)
    requires k < 16 && j < 16 && j != k
    ensures (mask | One(k)) & One(j) == mask & One(j)
  {
  }

  /** Shifting far too much sets no bit. */
  lemma SetNoBit(mask: bv16)
    ensures WithBit(mask, 65535) == mask
  {
  }

  /** One number more: it is added to what the pairs report, once a pair is active. */
  lemma EncodeReports(e: Encoder, sn: nat, s: nat)
    requires e.baseSN < RANGE && sn < RANGE && s < RANGE
    requires e.active ==> e.np.packetId == e.baseSN
    requires e.active || Sub(RANGE, sn, e.baseSN) > 16
    ensures var e' := Encode(e, sn);
            && e'.active && e'.np.packetId == e'.baseSN
            && (Reported(Finish(e'), s) <==> Reported(Finish(e), s) || s == sn)
  {
    hide One, WithBit, Bit;
    var e' := Encode(e, sn);
    var d := Sub(RANGE, sn, e.baseSN);
    if d > 16 {
      Alone(sn, s);
      ReportedLast(Finish(e), e'.np, s);
    } else {
      ReportedLast(e.done, e.np, s);
      ReportedLast(e.done, e'.np, s);
      MaskReports(e.np, sn, s);
    }
  }

  lemma ReportedLast(ps: seq<Pair>, p: Pair, s: nat)
    ensures Reported(ps + [p], s) <==> Reported(ps, s) || Reports(p, s)
  {
    assert forall q :: q in ps + [p] <==> q in ps || q == p;
  }

  lemma NoBits(k: nat)
    ensures !Bit(0, k)
  {
  }

  lemma Alone(sn: nat, s: nat)
    requires sn < RANGE && s < RANGE
    ensures Reports(Pair(sn, 0), s) <==> s == sn
  {
    NoBits(Sub(RANGE, s, sn) - if s == sn then 0 else 1);
  }

  lemma MaskReports(p: Pair, sn: nat, s: nat)
    requires p.packetId < RANGE && sn < RANGE && s < RANGE && Sub(RANGE, sn, p.packetId) <= 16
    ensures var mask := WithBit(p.lostPackets, Sub(RANGE, Sub(RANGE, sn, p.packetId), 1));
            Reports(p.(lostPackets := mask), s) <==> Reports(p, s) || s == sn
  {
    hide Bit, One, WithBit;
    var d := Sub(RANGE, sn, p.packetId);
    if d == 0 {
      SetNoBit(p.lostPackets);
    } else {
      forall j: nat | j < 16
        ensures Bit(WithBit(p.lostPackets, d - 1), j) <==> j == d - 1 || Bit(p.lostPackets, j)
      {
        SetBit(p.lostPackets, d - 1, j);
      }
      MaskSet(p, WithBit(p.lostPackets, d - 1), sn, s);
    }
  }

  lemma MaskSet(p: Pair, mask: bv16, sn: nat, s: nat)
    requires p.packetId < RANGE && sn < RANGE && s < RANGE && 1 <= Sub(RANGE, sn, p.packetId) <= 16
    requires forall j: nat | j < 16 :: Bit(mask, j) <==> j == Sub(RANGE, sn, p.packetId) - 1 || Bit(p.lostPackets, j)
    ensures Reports(p.(lostPackets := mask), s) <==> Reports(p, s) || s == sn
  {
    hide Bit, One, WithBit;
  }

  /** Decoding the pairs gives back exactly the encoded numbers, in whatever order they come, if the
      first of them is at most 65518 past the head of the queue. */
  lemma {:induction false} EncodeExact(first: nat, sns: seq<nat>, s: nat)
    requires first < RANGE && InRange(sns) && s < RANGE
    requires sns != [] && Sub(RANGE, sns[0], first) < RANGE - 17
    ensures var e := EncodeAll(first, sns);
            && e.active && e.np.packetId == e.baseSN
            && (Reported(Finish(e), s) <==> s in sns)
  {
    hide Encode, Finish, Reported, Sub;
    var before, sn := sns[..|sns| - 1], sns[|sns| - 1];
    assert s in sns <==> s in before || s == sn by {
      assert sns == before + [sn];
    }
    if before != [] {
      EncodeExact(first, before, s);
    } else {
      StartReportsNothing(first, s);
      FarFromStart(first, sn);
      assert EncodeAll(first, before) == Start(first);
    }
    EncodeReports(EncodeAll(first, before), sn, s);
  }

  lemma FarFromStart(first: nat, sn: nat)
    requires first < RANGE && sn < RANGE
    ensures Sub(RANGE, sn, Start(first).baseSN) > 16 <==> Sub(RANGE, sn, first) < RANGE - 17
  {
  }

  lemma StartReportsNothing(first: nat, s: nat)
    requires first < RANGE
    ensures !Start(first).active && !Reported(Finish(Start(first)), s)
  {
    NoPairs(s);
  }

  /** As long as no pair is active, the pairs report nothing that was encoded. */
  lemma {:induction false} InactiveReportsLess(first: nat, sns: seq<nat>, s: nat)
    requires first < RANGE && InRange(sns) && s < RANGE
    requires sns != [] && Sub(RANGE, sns[0], first) >= RANGE - 17
    ensures var e := EncodeAll(first, sns);
            && (e.active ==> e.np.packetId == e.baseSN)
            && (!e.active ==> e.done == [] && e.baseSN == Sub(RANGE, first, 17))
            && (Reported(Finish(e), s) ==> s in sns[1..])
  {
    hide Encode, Finish, Reported;
    var before, sn := sns[..|sns| - 1], sns[|sns| - 1];
    assert sns == before + [sn];
    var e := EncodeAll(first, before);
    if before == [] {
      assert e == Start(first);
      InactiveEncode(e, sn, s);
    } else {
      InactiveReportsLess(first, before, s);
      assert sns[1..] == before[1..] + [sn];
      if e.active || Sub(RANGE, sn, e.baseSN) > 16 {
        EncodeReports(e, sn, s);
      } else {
        InactiveEncode(e, sn, s);
      }
    }
  }

  lemma InactiveEncode(e: Encoder, sn: nat, s: nat)
    requires !e.active && e.done == [] && e.baseSN < RANGE && sn < RANGE && Sub(RANGE, sn, e.baseSN) <= 16
    ensures var e' := Encode(e, sn);
            !e'.active && e'.done == [] && e'.baseSN == e.baseSN && !Reported(Finish(e'), s)
  {
    hide One, WithBit;
    NoPairs(s);
  }

  /** For distinct numbers the condition on the first of them is needed as well: without it, that number
      is lost. */
  lemma ExactIff(first: nat, sns: seq<nat>)
    requires first < RANGE && InRange(sns) && Distinct(sns)
    ensures (forall s: nat | s < RANGE :: Reported(Finish(EncodeAll(first, sns)), s) <==> s in sns)
      <==> (sns == [] || Sub(RANGE, sns[0], first) < RANGE - 17)
  {
    hide One, WithBit, Bit;
    var ps := Finish(EncodeAll(first, sns));
    if sns == [] {
    } else if Sub(RANGE, sns[0], first) < RANGE - 17 {
      forall s: nat | s < RANGE
        ensures Reported(ps, s) <==> s in sns
      {
        EncodeExact(first, sns, s);
      }
    } else {
      assert sns[0] in sns && sns[0] !in sns[1..];
      InactiveReportsLess(first, sns, sns[0]);
    }
  }

  /** Two numbers further than 16 apart, both ways round. */
  predicate Far(a: nat, b: nat) {
    a < RANGE && b < RANGE && Sub(RANGE, a, b) > 16 && Sub(RANGE, b, a) > 16
  }

  /** No pair reports two numbers that are far apart. */
  lemma FarApart(p: Pair, a: nat, b: nat)
    requires Far(a, b)
    ensures !(Reports(p, a) && Reports(p, b))
  {
    hide Bit;
  }

  ghost predicate AllFar(sns: seq<nat>) {
    forall i, j | 0 <= i < j < |sns| :: Far(sns[i], sns[j])
  }

  lemma NoPairs(s: nat)
    ensures !Reported([], s)
  {
  }

  /** It takes a pair for each of several numbers that are far apart. */
  lemma {:induction false} FarNeedsPairs(sns: seq<nat>, ps: seq<Pair>)
    requires AllFar(sns) && forall sn <- sns :: Reported(ps, sn)
    ensures |sns| <= |ps|
    decreases |ps|
  {
    hide One, WithBit, Bit;
    if ps == [] {
      if sns != [] {
        NoPairs(sns[0]);
      }
    } else {
      var fewer, p := ps[..|ps| - 1], ps[|ps| - 1];
      assert ps == fewer + [p];
      if k :| 0 <= k < |sns| && Reports(p, sns[k]) {
        var rest := sns[..k] + sns[k + 1..];
        forall sn <- rest
          ensures Reported(fewer, sn)
        {
          ReportedLast(fewer, p, sn);
          var i :| 0 <= i < |sns| && i != k && sns[i] == sn;
          FarApart(p, sns[if i < k then i else k], sns[if i < k then k else i]);
        }
        FarNeedsPairs(rest, fewer);
      } else {
        forall sn <- sns
          ensures Reported(fewer, sn)
        {
          ReportedLast(fewer, p, sn);
        }
        FarNeedsPairs(sns, fewer);
      }
    }
  }

  /** In increasing serial order, seen from `first`. */
  ghost predicate Increasing(first: nat, sns: seq<nat>) {
    && first < RANGE
    && InRange(sns)
    && forall i, j | 0 <= i < j < |sns| :: Sub(RANGE, sns[i], first) < Sub(RANGE, sns[j], first)
  }

  function Ids(ps: seq<Pair>): (r: seq<nat>)
    ensures |r| == |ps| && forall i | 0 <= i < |ps| :: r[i] == ps[i].packetId
  {
    seq(|ps|, i requires 0 <= i < |ps| => ps[i].packetId)
  }

  lemma EncodeIds(e: Encoder, sn: nat)
    requires e.baseSN < RANGE && sn < RANGE
    ensures Ids(Finish(Encode(e, sn))) ==
      if Sub(RANGE, sn, e.baseSN) > 16 then Ids(Finish(e)) + [sn] else Ids(Finish(e))
    ensures Encode(e, sn).baseSN == if Sub(RANGE, sn, e.baseSN) > 16 then sn else e.baseSN
  {
    hide One;
  }

  /** Identifiers in increasing order, more than 16 apart; the last of them is `base`. */
  ghost predicate Spaced(first: nat, ids: seq<nat>, base: nat) {
    && ids != [] && ids[|ids| - 1] == base
    && (forall i | 0 <= i < |ids| - 1 :: SerialGap(first, ids[i], base))
    && AllFar(ids)
  }

  lemma SpacedNext(first: nat, ids: seq<nat>, base: nat, sn: nat)
    requires Spaced(first, ids, base) && SerialGap(first, base, sn)
    ensures Spaced(first, ids + [sn], sn)
  {
    var ids' := ids + [sn];
    forall i | 0 <= i < |ids|
      ensures SerialGap(first, ids'[i], sn) && Far(ids'[i], sn)
    {
    }
  }

  lemma LastIsHighest(first: nat, sns: seq<nat>, sn: nat)
    requires Increasing(first, sns + [sn])
    ensures Increasing(first, sns) && InRange(sns) && InRange(sns + [sn])
    ensures sn < RANGE && forall x <- sns :: x < RANGE && Sub(RANGE, x, first) < Sub(RANGE, sn, first)
    ensures sns != [] ==> Sub(RANGE, sns[|sns| - 1], first) < Sub(RANGE, sn, first)
  {
    var all := sns + [sn];
    assert all[|sns|] == sn && forall i | 0 <= i < |sns| :: all[i] == sns[i];
  }

  /** The pairs of numbers in increasing order start at such numbers, more than 16 apart. */
  lemma {:induction false} IdsFar(first: nat, sns: seq<nat>)
    requires Increasing(first, sns) && sns != []
    requires Sub(RANGE, sns[|sns| - 1], first) < RANGE - 17
    ensures var e := EncodeAll(first, sns);
            && e.baseSN in sns
            && (forall id <- Ids(Finish(e)) :: id in sns)
            && Spaced(first, Ids(Finish(e)), e.baseSN)
  {
    hide Increasing, InRange, Ids, Finish, Encode, EncodeAll, Spaced, Sub;
    var before, sn := sns[..|sns| - 1], sns[|sns| - 1];
    assert sns == before + [sn];
    LastIsHighest(first, before, sn);
    EncodeNext(first, before, sn);
    if before == [] {
      IdsFarFirst(first, sn);
    } else {
      IdsFar(first, before);
      IdsFarNext(first, before, sn);
    }
  }

  lemma IdsFarFirst(first: nat, sn: nat)
    requires first < RANGE && sn < RANGE && Sub(RANGE, sn, first) < RANGE - 17
    ensures InRange([])
    ensures var e := Encode(EncodeAll(first, []), sn);
            e.baseSN == sn && Ids(Finish(e)) == [sn] && Spaced(first, [sn], sn)
  {
    hide Ids, Finish, Encode, Spaced, Sub;
    assert EncodeAll(first, []) == Start(first);
    EncodeIds(Start(first), sn);
    FarFromStart(first, sn);
    FirstSpaced(first, sn);
    assert [] + [sn] == [sn];
  }

  lemma IdsFarNext(first: nat, before: seq<nat>, sn: nat)
    requires first < RANGE && InRange(before) && before != [] && sn < RANGE && Sub(RANGE, sn, first) < RANGE - 17
    requires forall x <- before :: x < RANGE && Sub(RANGE, x, first) < Sub(RANGE, sn, first)
    requires var e := EncodeAll(first, before);
             && e.baseSN in before
             && (forall id <- Ids(Finish(e)) :: id in before)
             && Spaced(first, Ids(Finish(e)), e.baseSN)
    ensures var e := Encode(EncodeAll(first, before), sn);
            && e.baseSN in before + [sn]
            && (forall id <- Ids(Finish(e)) :: id in before + [sn])
            && Spaced(first, Ids(Finish(e)), e.baseSN)
  {
    hide Ids, Finish, Encode, EncodeAll, Spaced, InRange;
    var e := EncodeAll(first, before);
    EncodeIds(e, sn);
    SerialSub(first, e.baseSN, sn);
    if Sub(RANGE, sn, e.baseSN) > 16 {
      SpacedNext(first, Ids(Finish(e)), e.baseSN, sn);
    }
  }

  lemma FirstSpaced(first: nat, sn: nat)
    requires first < RANGE
    ensures Ids(Finish(Start(first))) == [] && Spaced(first, [] + [sn], sn)
  {
  }

  /** `b` comes more than 16 after `a`, and less than a turn minus 16 after it. */
  predicate SerialGap(first: nat, a: nat, b: nat) {
    && first < RANGE && a < RANGE && b < RANGE
    && Sub(RANGE, a, first) + 16 < Sub(RANGE, b, first) < RANGE - 17
  }

  lemma SerialSub(first: nat, a: nat, b: nat)
    requires first < RANGE && a < RANGE && b < RANGE && Sub(RANGE, a, first) < Sub(RANGE, b, first)
    ensures Sub(RANGE, b, a) == Sub(RANGE, b, first) - Sub(RANGE, a, first)
  {
  }

  /** No smaller number of pairs reports the encoded numbers: the greedy encoder is optimal on numbers in
      increasing serial order that span less than 65519. */
  lemma EncodeMinimal(first: nat, sns: seq<nat>, ps: seq<Pair>)
    requires Increasing(first, sns) && sns != [] && Sub(RANGE, sns[|sns| - 1], first) < RANGE - 17
    requires forall sn <- sns :: Reported(ps, sn)
    ensures |Finish(EncodeAll(first, sns))| <= |ps|
  {
    hide One, WithBit, Bit;
    IdsFar(first, sns);
    var e := EncodeAll(first, sns);
    forall id <- Ids(Finish(e))
      ensures Reported(ps, id)
    {
      assert id in sns;
    }
    FarNeedsPairs(Ids(Finish(e)), ps);
  }
}
