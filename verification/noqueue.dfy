/** The protocol of pkg/pacer/no_queue.go: enqueuers, a stopper and one worker that share a locked queue
    and a one-slot wake channel. Each step is one critical section, one channel receive, or one send to
    the network; runs interleave them in any order. */
module WakeProtocol {
  /** Where the worker is: not started, blocked on the channel, about to take the lock, sending a packet,
      or gone. */
  datatype Worker<P> = Unstarted | AtWake | AtLock | Sending(packet: P) | Exited

  datatype State<P> = State(
    packets: seq<P>,
    token: bool,
    isStopped: bool,
    worker: Worker<P>,
    closes: nat,         // how often the channel was closed
    enqueued: seq<P>,
    sent: seq<P>)

  datatype Step<P> = Enqueue(p: P) | Stop | Start | Receive | Lock | Send

  function Initial<P>(): State<P> {
    State([], false, false, Unstarted, 0, [], [])
  }

  /** A receive blocks until there is a token or the channel is closed. */
  predicate Enabled<P>(s: State<P>, step: Step<P>) {
    match step
    case Enqueue(_) => true
    case Stop => true
    case Start => s.worker.Unstarted? || s.isStopped
    case Receive => s.worker.AtWake? && (s.token || s.closes > 0)
    case Lock => s.worker.AtLock?
    case Send => s.worker.Sending?
  }

  function Next<P>(s: State<P>, step: Step<P>): State<P>
    requires Enabled(s, step)
  {
    match step
    case Enqueue(p) =>
      var s := s.(packets := s.packets + [p], enqueued := s.enqueued + [p]);
      if |s.packets| == 1 && !s.isStopped then
        s.(token := true)
      else s
    case Stop => if s.isStopped then s else s.(isStopped := true, closes := s.closes + 1)
    case Start => if s.isStopped then s else s.(worker := AtWake)
    case Receive => s.(token := false, worker := AtLock)
    case Lock =>
      if s.isStopped then s.(worker := Exited)
      else if s.packets == [] then s.(worker := AtWake)
      else s.(packets := s.packets[1..], worker := Sending(s.packets[0]))
    case Send => s.(sent := s.sent + [s.worker.packet], worker := AtLock)
  }

  function InFlight<P>(s: State<P>): seq<P> {
    if s.worker.Sending? then [s.worker.packet] else []
  }

  /** What holds in every reachable state. */
  ghost predicate Inv<P>(s: State<P>) {
    // No lost wake-up.
    && (!s.isStopped && s.packets != [] ==> s.token || s.worker.AtLock? || s.worker.Sending?)
    // The channel is closed exactly by the first stop.
    && s.closes == (if s.isStopped then 1 else 0)
    // Nothing is lost, repeated or reordered.
    && s.sent + InFlight(s) + s.packets == s.enqueued
    && (s.worker.Exited? ==> s.isStopped)
  }

  lemma StepKeepsInv<P>(s: State<P>, step: Step<P>)
    requires Inv(s) && Enabled(s, step)
    ensures Inv(Next(s, step))
  {
    var s' := Next(s, step);
    match step
    case Enqueue(p) =>
      assert s.sent + InFlight(s) + (s.packets + [p]) == s.sent + InFlight(s) + s.packets + [p];
    case Lock =>
      if !s.isStopped && s.packets != [] {
        assert s.sent + [] + s.packets == s.sent + [s.packets[0]] + s.packets[1..];
      }
    case Send =>
      assert s'.sent + [] + s.packets == s.sent + InFlight(s) + s.packets;
    case _ =>
  }

  /** The states of a run, one after the other. */
  ghost predicate Run<P>(states: seq<State<P>>, steps: seq<Step<P>>) {
    && |states| == |steps| + 1
    && states[0] == Initial()
    && forall k | 0 <= k < |steps| :: Enabled(states[k], steps[k]) && states[k + 1] == Next(states[k], steps[k])
  }

  /** In every interleaving, at every point: no lost wake-up, one close, no token sent after it, and the sent,
      flying and queued packets are the enqueued ones in their order. */
  lemma {:induction false} RunSafe<P>(states: seq<State<P>>, steps: seq<Step<P>>, k: nat)
    requires Run(states, steps) && k <= |steps|
    ensures Inv(states[k])
    ensures 0 < k ==> states[k - 1].closes <= states[k].closes <= 1 && states[k - 1].sent <= states[k].sent
    ensures k < |steps| && steps[k].Enqueue? && states[k].packets == [] && !states[k].isStopped ==>
      states[k].closes == 0 && states[k + 1].token
  {
    if k > 0 {
      RunSafe(states, steps, k - 1);
      StepKeepsInv(states[k - 1], steps[k - 1]);
    }
  }

  /** The packets of the enqueuing steps, in order. */
  function Packets<P>(steps: seq<Step<P>>): seq<P> {
    if steps == [] then []
    else
      var before, step := Packets(steps[..|steps| - 1]), steps[|steps| - 1];
      if step.Enqueue? then before + [step.p] else before
  }

  /** What a run leads to, by its steps alone: the enqueued packets are those of the enqueuing steps, the pacer
      is stopped from the first stop on, and until then its worker runs from the start on. */
  lemma {:induction false} RunRecords<P>(states: seq<State<P>>, steps: seq<Step<P>>, k: nat)
    requires Run(states, steps) && k <= |steps|
    ensures states[k].enqueued == Packets(steps[..k])
    ensures states[k].isStopped <==> Stop in steps[..k]
    ensures Stop !in steps[..k] ==> (states[k].worker.Unstarted? <==> Start !in steps[..k])
  {
    if k > 0 {
      hide Run, Packets, Next, Enabled;
      RunRecords(states, steps, k - 1);
      RunStep(states, steps, k - 1);
      assert steps[..k] == steps[..k - 1] + [steps[k - 1]];
      PacketsNext(steps[..k - 1], steps[k - 1]);
      RecordedStep(states[k - 1], steps[k - 1]);
    } else {
      RunStart(states, steps);
    }
  }

  /** At first there is nothing: no packet, no token, no worker. */
  lemma RunStart<P>(states: seq<State<P>>, steps: seq<Step<P>>)
    requires Run(states, steps)
    ensures |states| > 0 && states[0] == Initial()
    ensures var s := states[0];
            && s.packets == [] && s.enqueued == [] && s.sent == [] && s.closes == 0
            && !s.token && !s.isStopped && s.worker.Unstarted?
  {
  }

  /** Whatever the worker does, packets can be enqueued and the pacer can be stopped. */
  lemma CallersAreFree<P>(s: State<P>, p: P)
    ensures Enabled(s, Enqueue(p)) && Enabled(s, Stop) && (s.worker.Unstarted? ==> Enabled(s, Start))
  {
  }

  lemma RunStep<P>(states: seq<State<P>>, steps: seq<Step<P>>, k: nat)
    requires Run(states, steps) && k < |steps|
    ensures |states| == |steps| + 1
    ensures Enabled(states[k], steps[k]) && states[k + 1] == Next(states[k], steps[k])
  {
  }

  lemma PacketsNext<P>(steps: seq<Step<P>>, step: Step<P>)
    ensures Packets(steps + [step]) == if step.Enqueue? then Packets(steps) + [step.p] else Packets(steps)
  {
    assert (steps + [step])[..|steps|] == steps;
  }

  lemma RecordedStep<P>(s: State<P>, step: Step<P>)
    requires Enabled(s, step)
    ensures Next(s, step).enqueued == if step.Enqueue? then s.enqueued + [step.p] else s.enqueued
    ensures Next(s, step).isStopped <==> s.isStopped || step.Stop?
    ensures !s.isStopped ==> (Next(s, step).worker.Unstarted? <==> s.worker.Unstarted? && !step.Start?)
  {
  }

  /** The steps can be taken one after the other. */
  predicate Possible<P>(s: State<P>, steps: seq<Step<P>>)
    decreases |steps|
  {
    steps != [] ==> Enabled(s, steps[0]) && Possible(Next(s, steps[0]), steps[1..])
  }

  function After<P>(s: State<P>, steps: seq<Step<P>>): State<P>
    requires Possible(s, steps)
    decreases |steps|
  {
    if steps == [] then s else After(Next(s, steps[0]), steps[1..])
  }

  /** Only the worker moves. */
  ghost predicate OfWorker<P>(steps: seq<Step<P>>) {
    forall step <- steps :: step.Receive? || step.Lock? || step.Send?
  }

  /** The worker is blocked, or gone. */
  predicate Idle<P>(s: State<P>) {
    !Enabled(s, Receive) && !Enabled(s, Lock) && !Enabled(s, Send)
  }

  /** How many steps the worker can take. */
  function Work<P>(s: State<P>): nat {
    2 * |s.packets| + match s.worker
      case AtWake => if s.token then 2 else 0
      case AtLock => 1 + if s.token then 2 else 0
      case Sending(_) => 2 + if s.token then 2 else 0
      case _ => 0
  }

  /** Left to itself, a running worker comes to rest after a fixed number of steps, and not before; then it has
      sent everything that was enqueued. No packet waits for a later one to be sent. */
  lemma {:induction false} WorkerDrains<P>(s: State<P>, steps: seq<Step<P>>)
    requires Inv(s) && !s.isStopped && !s.worker.Unstarted?
    requires Possible(s, steps) && OfWorker(steps)
    ensures |steps| <= Work(s)
    ensures Idle(After(s, steps)) <==> |steps| == Work(s)
    ensures |steps| == Work(s) ==> var s' := After(s, steps);
      s'.sent == s.enqueued && s'.packets == [] && s'.worker == AtWake && !s'.token
    decreases |steps|
  {
    if steps != [] {
      StepKeepsInv(s, steps[0]);
      assert steps[0] in steps && forall step <- steps[1..] :: step in steps;
      hide Inv;
      WorkerDrains(Next(s, steps[0]), steps[1..]);
    }
  }

  /** After a stop the worker sends no more than the packet it had in hand, and is gone in at most two
      steps. */
  lemma {:induction false} WorkerStops<P>(s: State<P>, steps: seq<Step<P>>)
    requires Inv(s) && s.isStopped && !s.worker.Unstarted?
    requires Possible(s, steps) && OfWorker(steps)
    ensures |steps| <= match s.worker case Exited => 0 case AtLock => 1 case _ => 2
    ensures Idle(After(s, steps)) <==> After(s, steps).worker == Exited
    ensures var s' := After(s, steps);
      s'.sent + InFlight(s') == s.sent + InFlight(s) && s'.packets == s.packets
    decreases |steps|
  {
    if steps != [] {
      StepKeepsInv(s, steps[0]);
      assert steps[0] in steps && forall step <- steps[1..] :: step in steps;
      hide Inv;
      WorkerStops(Next(s, steps[0]), steps[1..]);
    }
  }

  /** A pacer that was started and not stopped sends, once its worker comes to rest, exactly the packets of all
      the enqueuing steps, each once and in order. */
  lemma RunDelivers<P>(states: seq<State<P>>, steps: seq<Step<P>>, more: seq<Step<P>>)
    requires Run(states, steps) && Start in steps && Stop !in steps
    requires Possible(states[|steps|], more) && OfWorker(more)
    ensures Idle(After(states[|steps|], more)) <==> |more| == Work(states[|steps|])
    ensures Idle(After(states[|steps|], more)) ==> After(states[|steps|], more).sent == Packets(steps)
  {
    hide Possible, OfWorker, Idle, After, Work, Inv, Packets;
    assert steps[..|steps|] == steps;
    RunRecords(states, steps, |steps|);
    RunSafe(states, steps, |steps|);
    WorkerDrains(states[|steps|], more);
  }
}

/** The pacer itself. Each method is one critical section or one step of the worker. */
module NoQueue {
  import opened WakeProtocol

  class NoQueue<P(0)> {
    var packets: seq<P>
    // The one-slot channel: a token, and whether it is closed.
    var token: bool
    var closed: bool
    var isStopped: bool
    var worker: Worker<P>
    ghost var closes: nat
    ghost var enqueued: seq<P>
    ghost var sent: seq<P>

    ghost function Abs(): State<P>
      reads this
    {
      State(packets, token, isStopped, worker, closes, enqueued, sent)
    }

    ghost predicate Valid()
      reads this
    {
      Inv(Abs()) && closed == (closes > 0)
    }

    constructor ()
      ensures Valid() && Abs() == Initial()
    {
      packets, token, closed, isStopped, worker := [], false, false, false, Unstarted;
      closes, enqueued, sent := 0, [], [];
    }

    method Start()
      requires Valid() && (worker.Unstarted? || isStopped)
      modifies this
      ensures Valid() && Abs() == Next(old(Abs()), Step<P>.Start)
    {
      StepKeepsInv(Abs(), Step<P>.Start);
      if isStopped {
        return;
      }
      worker := AtWake;
    }

    method Stop()
      requires Valid()
      modifies this
      ensures Valid() && Abs() == Next(old(Abs()), Step<P>.Stop)
    {
      StepKeepsInv(Abs(), Step<P>.Stop);
      if isStopped {
        return;
      }
      closed := true;
      closes := closes + 1;
      isStopped := true;
    }

    method Enqueue(p: P)
      requires Valid()
      modifies this
      ensures Valid() && Abs() == Next(old(Abs()), Step<P>.Enqueue(p))
      ensures packets == old(packets) + [p] && enqueued == old(enqueued) + [p] && sent == old(sent)
      ensures token <==> old(token) || (old(packets) == [] && !isStopped)
    {
      StepKeepsInv(Abs(), Step<P>.Enqueue(p));
      packets := packets + [p];
      enqueued := enqueued + [p];
      if |packets| == 1 && !isStopped {
        // a full slot is left as it is
        token := true;
      }
    }

    /** The worker's receive on the channel; it blocks unless there is something to receive. */
    method Wake() returns (awake: bool)
      requires Valid() && worker.AtWake?
      modifies this
      ensures Valid() && awake == Enabled(old(Abs()), Step<P>.Receive)
      ensures Abs() == if awake then Next(old(Abs()), Step<P>.Receive) else old(Abs())
    {
      awake := token || closed;
      if awake {
        StepKeepsInv(Abs(), Step<P>.Receive);
        token := false;
        worker := AtLock;
      }
    }

    /** The worker's critical section. */
    method Take()
      requires Valid() && worker.AtLock?
      modifies this
      ensures Valid() && Abs() == Next(old(Abs()), Step<P>.Lock)
      ensures packets == old(packets) || (worker.Sending? && [worker.packet] + packets == old(packets))
    {
      StepKeepsInv(Abs(), Step<P>.Lock);
      if isStopped {
        worker := Exited;
      } else if |packets| == 0 {
        worker := AtWake;
      } else {
        worker := Sending(packets[0]);
        packets := packets[1..];
      }
    }

    method SendPacket()
      requires Valid() && worker.Sending?
      modifies this
      ensures Valid() && Abs() == Next(old(Abs()), Step<P>.Send)
    {
      StepKeepsInv(Abs(), Step<P>.Send);
      sent := sent + [worker.packet];
      worker := AtLock;
    }
  }
}
