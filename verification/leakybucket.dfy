/** The budget of the leaky bucket in pkg/pacer/leaky_bucket.go, tick by tick. A tick may send
    `intervalBytes`, less what earlier ticks sent too much, or plus what they left unused, but no more
    than twice `intervalBytes`. */
module PacerBudget {
  /** A packet by its size, which is never zero: it includes the RTP header. */
  datatype Packet = Packet(id: int, size: nat)

  const OVERSHOOT_FACTOR: nat := 2

  function Bytes(ps: seq<Packet>): nat {
    if ps == [] then 0 else Bytes(ps[..|ps| - 1]) + ps[|ps| - 1].size
  }

  lemma {:induction false} BytesAppend(a: seq<Packet>, b: seq<Packet>)
    ensures Bytes(a + b) == Bytes(a) + Bytes(b)
  {
    if b == [] {
      assert a + b == a;
    } else {
      assert (a + b)[..|a + b| - 1] == a + b[..|b| - 1];
      BytesAppend(a, b[..|b| - 1]);
    }
  }

  lemma BytesNext(ps: seq<Packet>, p: Packet)
    ensures Bytes(ps + [p]) == Bytes(ps) + p.size && (ps + [p])[..|ps|] == ps
  {
    assert (ps + [p])[..|ps|] == ps;
  }

  function Min(a: int, b: int): int {
    if a < b then a else b
  }

  /** One tick: what it was allowed, what it sent, the overage it leaves, whether packets were left, and
      whether the pacer was stopped in it. */
  datatype Tick = Tick(interval: nat, sent: seq<Packet>, overage: int, backlog: bool, stopped: bool)

  /** What a tick does after an overage of `overage`. It skips its turn while it owes more than it may
      send. Else it sends until the budget is overrun or the queue is empty, and carries the difference
      over; a stop ends it early, with the old overage. */
  ghost predicate Keeps(overage: int, t: Tick) {
    var credit := t.interval - overage;
    var budget := Min(credit, OVERSHOOT_FACTOR * t.interval);
    if credit < 0 then
      t.sent == [] && t.overage == -credit
    else
      && (t.sent != [] ==> Bytes(t.sent[..|t.sent| - 1]) <= budget)
      && if t.stopped then t.overage == overage
         else
           && t.overage == Bytes(t.sent) - budget
           && (t.overage > 0 ==> t.sent != [])
           && (t.overage <= 0 ==> !t.backlog)
  }

  /** A tick that is owed to by more than its interval sends nothing and pays off its interval. Any other has a
      budget of its interval less the debt, or plus what was left unused, up to twice the interval. It sends
      until the queue is empty or the budget is overrun by the last packet, never by more. */
  lemma TickMeans(overage: int, t: Tick)
    requires Keeps(overage, t)
    ensures overage > t.interval ==> t.sent == [] && t.overage == overage - t.interval
    ensures overage <= t.interval ==>
      var budget: int := if overage >= -(t.interval as int) then t.interval - overage else 2 * t.interval;
      && (t.sent != [] ==> Bytes(t.sent) - t.sent[|t.sent| - 1].size <= budget)
      && (t.stopped ==> t.overage == overage)
      && (!t.stopped ==> t.overage == Bytes(t.sent) - budget && (t.backlog ==> Bytes(t.sent) > budget))
  {
  }

  /** The overage before tick `k`; a pacer starts with none. */
  function Overage(ts: seq<Tick>, k: nat): int
    requires k <= |ts|
  {
    if k == 0 then 0 else ts[k - 1].overage
  }

  /** A run of the worker: every tick keeps the rules, and only the last one is stopped. */
  ghost predicate Run(ts: seq<Tick>) {
    && (forall k | 0 <= k < |ts| :: Keeps(Overage(ts, k), ts[k]))
    && (forall k | 0 <= k < |ts| - 1 :: !ts[k].stopped)
  }

  /** The bytes sent in the ticks from `a` up to `b`. */
  function Sent(ts: seq<Tick>, a: nat, b: nat): nat
    requires a <= b <= |ts|
  {
    if a == b then 0 else Sent(ts, a, b - 1) + Bytes(ts[b - 1].sent)
  }

  /** The bytes that the bitrate allows in those ticks. */
  function Allowed(ts: seq<Tick>, a: nat, b: nat): nat
    requires a <= b <= |ts|
  {
    if a == b then 0 else Allowed(ts, a, b - 1) + ts[b - 1].interval
  }

  ghost predicate SizesAtMost(ps: seq<Packet>, largest: nat) {
    forall i | 0 <= i < |ps| :: ps[i].size <= largest
  }

  /** No packet of the run is larger than `largest`. */
  ghost predicate AtMost(ts: seq<Tick>, largest: nat) {
    forall k | 0 <= k < |ts| :: SizesAtMost(ts[k].sent, largest)
  }

  lemma TickBounds(overage: int, t: Tick, largest: nat)
    requires Keeps(overage, t) && overage <= largest && SizesAtMost(t.sent, largest)
    ensures !t.stopped ==> -2 * t.interval <= t.overage <= largest
    ensures !t.stopped ==> Bytes(t.sent) <= t.interval - overage + t.overage
    ensures Bytes(t.sent) <= t.interval - overage + largest
  {
  }

  /** The overage stays between minus twice the last interval and the largest packet. */
  lemma {:induction false} OverageBounds(ts: seq<Tick>, k: nat, largest: nat)
    requires Run(ts) && AtMost(ts, largest) && k <= |ts| && (k == |ts| && k > 0 ==> !ts[k - 1].stopped)
    ensures Overage(ts, k) <= largest
    ensures k > 0 ==> -2 * ts[k - 1].interval <= Overage(ts, k)
  {
    if k > 0 {
      OverageBounds(ts, k - 1, largest);
      TickBounds(Overage(ts, k - 1), ts[k - 1], largest);
    }
  }

  /** What a window of ticks sends is paid for by its intervals and by the change of the overage. */
  lemma {:induction false} Paid(ts: seq<Tick>, a: nat, b: nat, largest: nat)
    requires Run(ts) && AtMost(ts, largest) && a <= b <= |ts| && (b == |ts| && b > 0 ==> !ts[b - 1].stopped)
    ensures Sent(ts, a, b) <= Allowed(ts, a, b) - Overage(ts, a) + Overage(ts, b)
  {
    if a < b {
      Paid(ts, a, b - 1, largest);
      OverageBounds(ts, b - 1, largest);
      TickBounds(Overage(ts, b - 1), ts[b - 1], largest);
    }
  }

  /** The last tick of a window may have been stopped halfway, but it too sends no more than one packet
      over what is left. */
  lemma WindowPaid(ts: seq<Tick>, a: nat, b: nat, largest: nat)
    requires Run(ts) && AtMost(ts, largest) && a < b <= |ts|
    ensures Sent(ts, a, b) <= Allowed(ts, a, b) - Overage(ts, a) + largest
  {
    Paid(ts, a, b - 1, largest);
    OverageBounds(ts, b - 1, largest);
    LastTick(ts, b - 1, largest);
    hide Run, AtMost, Keeps, Overage;
    assert Sent(ts, a, b) == Sent(ts, a, b - 1) + Bytes(ts[b - 1].sent);
    assert Allowed(ts, a, b) == Allowed(ts, a, b - 1) + ts[b - 1].interval;
  }

  lemma LastTick(ts: seq<Tick>, k: nat, largest: nat)
    requires Run(ts) && AtMost(ts, largest) && k < |ts| && Overage(ts, k) <= largest
    ensures Bytes(ts[k].sent) <= ts[k].interval - Overage(ts, k) + largest
  {
    hide Keeps, Bytes, SizesAtMost;
    TickBounds(Overage(ts, k), ts[k], largest);
  }

  /** Over any window of a run, whatever came before, the bytes sent stay within what the window allows,
      plus the largest packet, plus twice what the tick before the window was allowed. From the start of
      the run on, the last term is not there. */
  lemma WindowBound(ts: seq<Tick>, a: nat, b: nat, largest: nat)
    requires Run(ts) && AtMost(ts, largest) && a <= b <= |ts|
    ensures Sent(ts, a, b) <=
      Allowed(ts, a, b) + largest + if a == 0 then 0 else 2 * ts[a - 1].interval
  {
    if a < b {
      WindowPaid(ts, a, b, largest);
      OverageBounds(ts, a, largest);
    }
  }

  /** With packets left after every tick the pacer keeps the rate from below as well: over any window from
      the start it sends all that was allowed. */
  lemma {:induction false} FullRate(ts: seq<Tick>, b: nat)
    requires Run(ts) && b <= |ts|
    requires forall k | 0 <= k < b :: ts[k].backlog && !ts[k].stopped
    ensures Sent(ts, 0, b) == Allowed(ts, 0, b) + Overage(ts, b) && Overage(ts, b) >= 0
  {
    if b > 0 {
      FullRate(ts, b - 1);
    }
  }
}

/** The worker of the leaky bucket, with its queue shared with enqueuers and the one that stops it. */
module LeakyBucket {
  import opened PacerBudget

  ghost predicate Sized(ps: seq<Packet>) {
    forall i | 0 <= i < |ps| :: ps[i].size > 0
  }

  /** All packets that arrive in the first `k` turns of a tick. */
  ghost function Arrived(arrivals: nat -> seq<Packet>, k: nat): seq<Packet> {
    if k == 0 then [] else Arrived(arrivals, k - 1) + arrivals(k - 1)
  }

  lemma NothingOut(arrivals: nat -> seq<Packet>)
    ensures Bytes([]) == 0 && Arrived(arrivals, 0) == []
  {
  }

  lemma OneMoreTurn(before: seq<Packet>, arrivals: nat -> seq<Packet>, k: nat)
    ensures before + Arrived(arrivals, k) + arrivals(k) == before + Arrived(arrivals, k + 1)
  {
    Regroup(before, Arrived(arrivals, k), arrivals(k));
  }

  lemma Regroup(a: seq<Packet>, b: seq<Packet>, c: seq<Packet>)
    ensures a + b + c == a + (b + c)
  {
  }

  class PacerLeakyBucket {
    var packets: seq<Packet>
    var queueBytes: int
    var isStopped: bool
    // The worker's own carry-over.
    var overage: int
    // Everything enqueued, and everything handed to the writer.
    ghost var enqueued: seq<Packet>
    ghost var sent: seq<Packet>

    /** Packets leave in the order they came, each once, and the byte count is that of the queue. */
    ghost predicate Valid()
      reads `packets, `queueBytes, `enqueued, `sent
    {
      && enqueued == sent + packets
      && queueBytes == Bytes(packets)
      && Sized(packets)
    }

    constructor ()
      ensures Valid() && enqueued == [] && overage == 0 && !isStopped
    {
      packets, queueBytes, isStopped, overage := [], 0, false, 0;
      enqueued, sent := [], [];
    }

    method Enqueue(pkt: Packet)
      requires Valid() && pkt.size > 0
      modifies `packets, `queueBytes, `enqueued
      ensures Valid()
      ensures enqueued == if isStopped then old(enqueued) else old(enqueued) + [pkt]
    {
      if isStopped {
        return;
      }
      packets := packets + [pkt];
      queueBytes := queueBytes + pkt.size;
      enqueued := enqueued + [pkt];
      BytesAppend(old(packets), [pkt]);
      assert sent + (old(packets) + [pkt]) == sent + old(packets) + [pkt];
    }

    method Stop()
      requires Valid()
      modifies `isStopped
      ensures Valid() && isStopped
    {
      isStopped := true;
    }

    /** The other goroutines' enqueues that come before turn `k`. They may have passed their check of the
        stop flag long ago, so it does not hold them back. */
    method Interleave(arrived: seq<Packet>)
      requires Valid() && Sized(arrived)
      modifies `packets, `queueBytes, `enqueued
      ensures Valid() && packets == old(packets) + arrived && enqueued == old(enqueued) + arrived
    {
      BytesAppend(packets, arrived);
      packets := packets + arrived;
      queueBytes := queueBytes + Bytes(arrived);
      enqueued := enqueued + arrived;
      assert sent + (old(packets) + arrived) == sent + old(packets) + arrived;
    }

    /** One turn of the inner loop that finds a packet. */
    method SendFront() returns (pktSize: nat)
      requires Valid() && packets != []
      modifies `packets, `queueBytes, `sent
      ensures Valid() && sent == old(sent) + [old(packets)[0]] && pktSize == old(packets)[0].size > 0
    {
      var pkt := packets[0];
      pktSize := pkt.size;
      BytesAppend([pkt], packets[1..]);
      assert [pkt] + packets[1..] == packets;
      assert Bytes([pkt]) == pkt.size by { assert [pkt][..0] == []; }
      packets := packets[1..];
      queueBytes := queueBytes - pktSize;
      sent := sent + [pkt];
      assert old(sent) + old(packets) == old(sent) + [pkt] + packets;
    }

    /** One turn of the inner loop: others have enqueued `arrived`, and the oldest packet is sent if there
        is one. */
    method Turn(arrived: seq<Packet>) returns (sentOne: bool, pktSize: nat, ghost pkt: Packet)
      requires Valid() && Sized(arrived)
      modifies `packets, `queueBytes, `enqueued, `sent
      ensures Valid() && enqueued == old(enqueued) + arrived
      ensures sentOne ==> sent == old(sent) + [pkt] && pktSize == pkt.size > 0
      ensures !sentOne ==> sent == old(sent) && packets == []
    {
      hide Bytes, Sized;
      Interleave(arrived);
      sentOne, pktSize, pkt := false, 0, Packet(0, 0);
      if |packets| > 0 {
        pkt := packets[0];
        pktSize := SendFront();
        sentOne := true;
      }
    }

    /** The inner loop of a tick. `arrivals(k)` are the packets that others enqueue just before the worker
        takes the lock for the k-th time, and `stopAt` is the turn, if any, at which it finds itself
        stopped. It ends however much is enqueued meanwhile, because every packet has a size. */
    method SendLoop(budget: nat, arrivals: nat -> seq<Packet>, stopAt: int) returns (ghost out: seq<Packet>, turns: nat)
      requires Valid() && !isStopped && forall k :: Sized(arrivals(k))
      modifies this
      ensures Valid() && sent == old(sent) + out && enqueued == old(enqueued) + Arrived(arrivals, turns)
      ensures out != [] ==> Bytes(out[..|out| - 1]) <= budget
      ensures isStopped ==> overage == old(overage)
      ensures !isStopped ==>
        overage == Bytes(out) - budget && (overage > 0 ==> out != []) && (overage <= 0 ==> packets == [])
    {
      var toSendBytes: int := budget;
      out, turns := [], 0;
      NothingOut(arrivals);
      assert sent == sent + out && enqueued == enqueued + Arrived(arrivals, 0);
      hide Bytes, Valid, Sized, Arrived;
      while true
        invariant Valid() && !isStopped
        invariant 0 <= toSendBytes == budget - Bytes(out)
        invariant sent == old(sent) + out && overage == old(overage)
        invariant enqueued == old(enqueued) + Arrived(arrivals, turns)
        invariant out != [] ==> Bytes(out[..|out| - 1]) <= budget
        decreases toSendBytes
      {
        if turns == stopAt {
          isStopped := true;
          return;
        }
        OneMoreTurn(old(enqueued), arrivals, turns);
        var sentOne, pktSize, pkt := Turn(arrivals(turns));
        turns := turns + 1;
        if !sentOne {
          // what is left of the budget is kept for later
          overage := -toSendBytes;
          return;
        }
        BytesNext(out, pkt);
        Regroup(old(sent), out, [pkt]);
        out := out + [pkt];
        toSendBytes := toSendBytes - pktSize;
        if toSendBytes < 0 {
          // the last packet overran the budget
          overage := -toSendBytes;
          return;
        }
      }
    }

    /** One tick of the worker. */
    method Tick(intervalBytes: nat, arrivals: nat -> seq<Packet>, stopAt: int)
      returns (ghost t: PacerBudget.Tick, turns: nat)
      requires Valid() && !isStopped && forall k :: Sized(arrivals(k))
      modifies this
      ensures Valid() && sent == old(sent) + t.sent && enqueued == old(enqueued) + Arrived(arrivals, turns)
      ensures t == PacerBudget.Tick(intervalBytes, t.sent, overage, packets != [], isStopped)
      ensures Keeps(old(overage), t)
    {
      var toSendBytes := intervalBytes - overage;
      turns := 0;
      if toSendBytes < 0 {
        // the debt exceeds what this tick may send
        overage := -toSendBytes;
        t := PacerBudget.Tick(intervalBytes, [], overage, packets != [], isStopped);
        return;
      }
      // unused budget carries over only so far
      if toSendBytes > OVERSHOOT_FACTOR * intervalBytes {
        toSendBytes := OVERSHOOT_FACTOR * intervalBytes;
      }
      ghost var out;
      out, turns := SendLoop(toSendBytes, arrivals, stopAt);
      t := PacerBudget.Tick(intervalBytes, out, overage, packets != [], isStopped);
    }
  }
}
