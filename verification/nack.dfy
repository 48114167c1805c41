/** The NACK queue of pkg/nack/nack.go. The safe queue of that file wraps each of these calls in one
    lock, so a call is atomic. */
module NackQueue {
  import opened Wrappers
  import opened Modular
  import opened NackPairs
  import opened NackRules

  class Nack {
    const seqNum: nat
    const bornAt: int
    var tries: nat
    var lastNackedAt: int

    constructor (sn: nat, now: int)
      ensures Value() == Entry(sn, now, 0, now)
    {
      seqNum, bornAt, tries, lastNackedAt := sn, now, 0, now;
    }

    function Value(): Entry
      reads this
    {
      Entry(seqNum, bornAt, tries, lastNackedAt)
    }

    method GetNack(p: Params, now: int, clock: int, rtt: nat)
      returns (shouldSend: bool, shouldRemove: bool, sn: nat)
      modifies this
      ensures sn == seqNum && Value() == After(p, old(Value()), now, clock, rtt)
      ensures shouldSend == Judge(p, old(Value()), now, clock, rtt).Due?
      ensures shouldRemove == Judge(p, old(Value()), now, clock, rtt).Expired?
      ensures shouldRemove <==> old(tries) >= p.maxTries || clock - bornAt > p.maxLifetime
      ensures shouldSend <==> !shouldRemove && Waits(p, old(lastNackedAt), old(tries), Look(now, clock, rtt))
      ensures tries == old(tries) + (if shouldSend then 1 else 0)
      ensures lastNackedAt == if shouldSend then now else old(lastNackedAt)
    {
      sn := seqNum;
      shouldSend, shouldRemove := false, false;
      if tries >= p.maxTries || clock - bornAt > p.maxLifetime {
        shouldRemove := true;
        return;
      }
      var requiredInterval := 0;
      if tries > 0 {
        requiredInterval := p.maxInterval;
        var backoffInterval := p.backoff(rtt, tries - 1);
        if backoffInterval < requiredInterval {
          requiredInterval := backoffInterval;
        }
      }
      if requiredInterval < p.minInterval {
        requiredInterval := p.minInterval;
      }
      if now - lastNackedAt < requiredInterval {
        return;
      }
      tries := tries + 1;
      lastNackedAt := now;
      shouldSend := true;
    }
  }

  /** The values of a sequence of entries. */
  function Values(nacks: seq<Nack>): (r: seq<Entry>)
    reads nacks
    ensures |r| == |nacks|
  {
    if nacks == [] then [] else [nacks[0].Value()] + Values(nacks[1..])
  }

  lemma {:induction false} ValuesAt(nacks: seq<Nack>, i: nat)
    requires i < |nacks|
    ensures Values(nacks)[i] == nacks[i].Value()
  {
    if i > 0 {
      ValuesAt(nacks[1..], i - 1);
    }
  }

  lemma {:induction false} ValuesAppend(a: seq<Nack>, b: seq<Nack>)
    ensures Values(a + b) == Values(a) + Values(b)
  {
    if a == [] {
      assert a + b == b;
    } else {
      assert (a + b)[1..] == a[1..] + b;
      ValuesAppend(a[1..], b);
    }
  }

  lemma FirstMatch(nacks: seq<Nack>, i: nat, sn: nat)
    requires i < |nacks| && nacks[i].seqNum == sn && forall j | 0 <= j < i :: nacks[j].seqNum != sn
    ensures Values(nacks[..i] + nacks[i + 1..]) == RemoveFirst(Values(nacks), sn)
  {
    hide Values, RemoveFirst;
    forall j | 0 <= j <= i
      ensures Values(nacks)[j].seqNum == nacks[j].seqNum
    {
      ValuesAt(nacks, j);
    }
    RemoveAt(Values(nacks), i, sn);
    ValuesSplit(nacks, i);
  }

  lemma NoMatch(nacks: seq<Nack>, sn: nat)
    requires forall j | 0 <= j < |nacks| :: nacks[j].seqNum != sn
    ensures RemoveFirst(Values(nacks), sn) == Values(nacks)
  {
    hide Values, RemoveFirst;
    forall j | 0 <= j < |nacks|
      ensures Values(nacks)[j].seqNum == nacks[j].seqNum
    {
      ValuesAt(nacks, j);
    }
    RemoveNone(Values(nacks), sn);
  }

  lemma ValuesOne(n: Nack)
    ensures Values([n]) == [n.Value()]
  {
  }

  /** What is kept of a queue and the new entry are its newest entries. */
  lemma PushedValues(nacks: seq<Nack>, q: seq<Entry>, capacity: nat, e: Entry)
    requires q == Values(nacks) && |nacks| <= capacity && 0 < capacity
    ensures Values(if |nacks| == capacity then nacks[1..] else nacks) + [e] == LastN(q + [e], capacity)
  {
  }

  lemma {:induction false} RemoveAt(q: seq<Entry>, i: nat, sn: nat)
    requires i < |q| && q[i].seqNum == sn && forall j | 0 <= j < i :: q[j].seqNum != sn
    ensures RemoveFirst(q, sn) == q[..i] + q[i + 1..]
  {
    if i > 0 {
      RemoveAt(q[1..], i - 1, sn);
      assert q[..i] + q[i + 1..] == [q[0]] + (q[1..][..i - 1] + q[1..][i..]);
    }
  }

  lemma {:induction false} RemoveNone(q: seq<Entry>, sn: nat)
    requires forall j | 0 <= j < |q| :: q[j].seqNum != sn
    ensures RemoveFirst(q, sn) == q
  {
    if q != [] {
      RemoveNone(q[1..], sn);
    }
  }

  class NackQueue {
    const params: Params
    // cap(nacks): the queue never outgrows it, so append never moves the slice
    const capacity: nat
    var nacks: seq<Nack>
    var rtt: nat

    constructor (params: Params, capacity: nat, rtt: nat)
      ensures Valid() && nacks == []
      ensures this.params == params && this.capacity == capacity
    {
      this.params, this.capacity, this.rtt := params, capacity, rtt;
      nacks := [];
    }

    ghost predicate Valid()
      reads this
    {
      && |nacks| <= capacity
      && (forall i, j | 0 <= i < j < |nacks| :: nacks[i] != nacks[j])
      && forall i | 0 <= i < |nacks| :: nacks[i].seqNum < RANGE
    }

    ghost function Entries(): (r: seq<Entry>)
      reads this, nacks
      ensures |r| == |nacks|
    {
      Values(nacks)
    }

    method Remove(sn: nat)
      requires Valid()
      modifies `nacks
      ensures Valid() && Entries() == RemoveFirst(old(Entries()), sn)
      ensures forall n <- nacks :: n in old(nacks)
    {
      hide Values, RemoveFirst;
      for idx := 0 to |nacks|
        invariant nacks == old(nacks)
        invariant forall j | 0 <= j < idx :: nacks[j].seqNum != sn
      {
        if nacks[idx].seqNum == sn {
          FirstMatch(nacks, idx, sn);
          nacks := nacks[..idx] + nacks[idx + 1..];
          return;
        }
      }
      NoMatch(nacks, sn);
    }

    /** Adds an entry, in place of the oldest one if the queue is full. */
    method Push(sn: nat, now: int)
      requires Valid() && 0 < capacity && sn < RANGE
      modifies `nacks
      ensures Valid() && Entries() == LastN(old(Entries()) + [Entry(sn, now, 0, now)], capacity)
      ensures forall n <- nacks :: n in old(nacks) || fresh(n)
    {
      hide Values, LastN;
      ghost var q := Entries();
      PushedValues(nacks, q, capacity, Entry(sn, now, 0, now));
      if |nacks| == capacity {
        nacks := nacks[1..];
      }
      ghost var kept := Values(nacks);
      var n := new Nack(sn, now);
      assert Values(nacks) == kept;
      ValuesAppend(nacks, [n]);
      ValuesOne(n);
      nacks := nacks + [n];
    }

    /** Pushes the `count` numbers before `end`; only the newest that fit. `clocks` is what the clock says
        at each push. */
    method PushRange(end: nat, count: nat, clocks: seq<int>)
      requires Valid() && end < RANGE && |clocks| == if count < capacity then count else capacity
      modifies `nacks
      ensures Valid()
      ensures Entries() == PushAll(old(Entries()), Born(Before(end, |clocks|), clocks), capacity)
      ensures 0 < capacity ==> Numbers(Entries()) == PushAll(old(Numbers(Entries())), Before(end, count), capacity)
    {
      hide PushAll, Born, Before, LastN, Numbers;
      var num := if count < capacity then count else capacity;
      ghost var q := Entries();
      ghost var born := Born(Before(end, num), clocks);
      PushedNone(q, born, capacity);
      for i := num downto 0
        invariant Valid() && Entries() == PushAll(q, born[..num - i], capacity)
      {
        PushedNext(q, end, clocks, num - i, capacity);
        Push(Sub(RANGE, end, Wire(RANGE, i + 1)), clocks[num - i - 1]);
      }
      assert born[..num] == born;
      PushedNumbers(q, born, capacity);
      if 0 < capacity {
        PushRangeIsPushAll(Numbers(q), end, count, capacity);
      }
    }

    /** One look at each entry, in queue order. The due numbers become pairs, the expired ones are listed
        for removal. `clocks` is what the clock says at each look. */
    method Round(now: int, clocks: seq<int>) returns (nps: seq<Pair>, numSeqNumsNacked: nat, snsToPurge: seq<nat>)
      requires Valid() && nacks != [] && |clocks| == |nacks|
      modifies nacks
      ensures Entries() == Looked(params, old(Entries()), now, clocks, rtt)
      ensures var verdicts := Verdicts(params, old(Entries()), now, clocks, rtt);
              && snsToPurge == NumbersOf(old(Entries()), verdicts, Expired)
              && var dues := NumbersOf(old(Entries()), verdicts, Due);
              && numSeqNumsNacked == |dues| && InRange(dues)
              && nps == Finish(EncodeAll(old(Entries())[0].seqNum, dues))
    {
      hide Judge, WithBit, NumbersOf, EncodeAll, InRange;
      ghost var q := Entries();
      ghost var verdicts := Verdicts(params, q, now, clocks, rtt);
      EntriesAt();
      RoundStart(q, verdicts, q[0].seqNum);
      // far enough behind the head that a number near it opens a pair
      var baseSN := Sub(RANGE, nacks[0].seqNum, 17);
      snsToPurge := [];
      numSeqNumsNacked := 0;
      var isPairActive := false;
      var np := Pair(0, 0);
      nps := [];
      for i := 0 to |nacks|
        invariant forall j | 0 <= j < |nacks| ::
          nacks[j].Value() == if j < i then After(params, q[j], now, clocks[j], rtt) else q[j]
        invariant snsToPurge == NumbersOf(q[..i], verdicts[..i], Expired)
        invariant InRange(NumbersOf(q[..i], verdicts[..i], Due))
        invariant numSeqNumsNacked == |NumbersOf(q[..i], verdicts[..i], Due)|
        invariant Encoder(baseSN, np, isPairActive, nps)
               == EncodeAll(q[0].seqNum, NumbersOf(q[..i], verdicts[..i], Due))
      {
        ghost var dues := NumbersOf(q[..i], verdicts[..i], Due);
        ghost var e := Encoder(baseSN, np, isPairActive, nps);
        NumbersNext(q, verdicts, i, Due);
        NumbersNext(q, verdicts, i, Expired);
        assert q[i] == nacks[i].Value() && dues + [] == dues;
        EncodeNext(q[0].seqNum, dues, q[i].seqNum);
        var shouldSend, shouldRemove, sn := nacks[i].GetNack(params, now, clocks[i], rtt);
        if shouldRemove {
          snsToPurge := snsToPurge + [sn];
        } else if shouldSend {
          numSeqNumsNacked := numSeqNumsNacked + 1;
          if Sub(RANGE, sn, baseSN) > 16 {
            // out of the reach of the mask
            if isPairActive {
              nps := nps + [np];
            }
            baseSN := sn;
            np := Pair(sn, 0);
            isPairActive := true;
          } else {
            np := np.(lostPackets := WithBit(np.lostPackets, Sub(RANGE, Sub(RANGE, sn, baseSN), 1)));
          }
          assert Encoder(baseSN, np, isPairActive, nps) == Encode(e, sn);
        }
      }
      assert q[..|nacks|] == q && verdicts[..|nacks|] == verdicts;
      // the pair still open
      if isPairActive {
        nps := nps + [np];
      }
      EntriesAt();
    }

    lemma EntriesAt()
      ensures forall j | 0 <= j < |nacks| :: Entries()[j] == nacks[j].Value()
    {
      forall j | 0 <= j < |nacks|
        ensures Entries()[j] == nacks[j].Value()
      {
        ValuesAt(nacks, j);
      }
    }

    /** The pairs to send, and how many numbers they report. */
    method Pairs(now: int, clocks: seq<int>) returns (nps: seq<Pair>, num: nat)
      requires Valid() && |clocks| == |nacks|
      modifies `nacks, nacks
      ensures Valid()
      ensures old(nacks) == [] ==> nps == [] && num == 0 && nacks == []
      ensures old(nacks) != [] ==>
        var q := old(Entries());
        var verdicts := Verdicts(params, q, now, clocks, rtt);
        var dues := NumbersOf(q, verdicts, Due);
        && num == |dues| && InRange(dues) && nps == Finish(EncodeAll(q[0].seqNum, dues))
        && Entries() == Purged(params, q, now, clocks, rtt)
    {
      if |nacks| == 0 {
        return [], 0;
      }
      var snsToPurge;
      nps, num, snsToPurge := Round(now, clocks);
      ghost var looked := Entries();
      for i := 0 to |snsToPurge|
        invariant Valid()
        invariant RemoveEach(Entries(), snsToPurge[i..]) == RemoveEach(looked, snsToPurge)
      {
        assert snsToPurge[i..][1..] == snsToPurge[i + 1..];
        Remove(snsToPurge[i]);
      }
    }
  }

  lemma {:induction false} BeforeAt(end: nat, count: nat, i: nat)
    requires end < RANGE && i < count
    ensures Before(end, count)[i] == Earlier(end, count - i)
  {
    if i > 0 {
      BeforeAt(end, count - 1, i - 1);
    }
  }

  /** The numbers before `end` count up to it one by one, from `count` before it, and wrap at 2^16. */
  lemma BeforeMeans(end: nat, count: nat, i: nat)
    requires end < RANGE && i < count <= RANGE
    ensures Before(end, count)[i] ==
      if end + i >= count then end + i - count else end + i + 0x1_0000 - count
  {
    hide Before;
    BeforeAt(end, count, i);
    WireOf(count - i);
    hide Wire;
  }

  lemma WireOf(k: nat)
    requires k <= RANGE
    ensures Wire(RANGE, k) == if k < RANGE then k else 0
  {
  }

  lemma PushedNone(q: seq<Entry>, es: seq<Entry>, capacity: nat)
    ensures PushAll(q, es[..0], capacity) == q
  {
  }

  /** The push number `k` of a range. */
  lemma PushedNext(q: seq<Entry>, end: nat, clocks: seq<int>, k: nat, capacity: nat)
    requires end < RANGE && 0 < k <= |clocks|
    ensures var born := Born(Before(end, |clocks|), clocks);
            var e := Entry(Earlier(end, |clocks| - k + 1), clocks[k - 1], 0, clocks[k - 1]);
            PushAll(q, born[..k], capacity) == LastN(PushAll(q, born[..k - 1], capacity) + [e], capacity)
  {
    hide Before, Earlier, LastN;
    BeforeAt(end, |clocks|, k - 1);
    var born := Born(Before(end, |clocks|), clocks);
    assert born[..k][..k - 1] == born[..k - 1] && born[..k][k - 1] == born[k - 1];
  }

  lemma ValuesSplit(nacks: seq<Nack>, i: nat)
    requires i < |nacks|
    ensures Values(nacks[..i] + nacks[i + 1..]) == Values(nacks)[..i] + Values(nacks)[i + 1..]
  {
    hide Values;
    ValuesBefore(nacks, i);
    ValuesBefore(nacks, i + 1);
    ValuesAppend(nacks[..i], nacks[i + 1..]);
  }

  lemma ValuesBefore(nacks: seq<Nack>, i: nat)
    requires i <= |nacks|
    ensures Values(nacks[..i]) == Values(nacks)[..i] && Values(nacks[i..]) == Values(nacks)[i..]
  {
    hide Values;
    var a, b := nacks[..i], nacks[i..];
    assert nacks == a + b;
    ValuesAppend(a, b);
    Halves(Values(a), Values(b));
  }

  lemma Halves(a: seq<Entry>, b: seq<Entry>)
    ensures (a + b)[..|a|] == a && (a + b)[|a|..] == b
  {
  }
}
