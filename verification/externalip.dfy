/** The goroutines of findExternalIP in pkg/rtcconfig/ip.go: resolvers, queries, probes, the reader, and
    the one that waits for all of them before it ends the read. Each step is one critical section or one
    call on the wait group; a run interleaves the steps in any order, and answers arrive as they like. */
module ExternalIP {
  type Id = nat
  type Tx = nat

  /** Where a query is: spawned, waiting for an answer under the transaction it drew, or past its deferred
      delete. */
  datatype Phase = Spawned | Registered(tx: Tx) | Unregistered

  datatype Waiter = NotStarted | Waiting | Released

  /** The reader: blocked in a read, or about to close the `done` channel of the query it found and to
      launch a probe. */
  datatype Reader = Reading | Closing(q: Id, startProbe: bool)

  datatype State = State(
    toStart: nat,                // servers whose resolver is not started yet
    waiter: Waiter,
    resolvers: nat,
    queries: map<Id, Phase>,
    spawned: set<Id>,            // every query there ever was
    pending: map<Tx, Id>,
    probes: nat,                 // counted probes, launched or about to be
    probed: set<string>,
    reader: Reader,
    count: int,                  // of the wait group
    closed: multiset<Id>)        // the queries whose done channel was closed, as often as it was

  datatype Step =
    | StartResolver
    | StartWaiter
    | SpawnQuery(q: Id)
    | ResolverDone
    | Register(q: Id, tx: Tx)
    | Unregister(q: Id)
    | QueryDone(q: Id)
    | Answer(tx: Tx, ip: string, valid: bool)  // of a packet with that transaction
    | Close
    | ProbeDone
    | Release

  function Initial(servers: nat): State {
    State(servers, NotStarted, 0, map[], {}, map[], 0, {}, Reading, 0, multiset{})
  }

  /** What can happen next. Each query draws any transaction, be it one that another has drawn before. */
  predicate Enabled(s: State, step: Step) {
    match step
    case StartResolver => s.toStart > 0 && s.waiter.NotStarted?
    case StartWaiter => s.toStart == 0 && s.waiter.NotStarted?
    case SpawnQuery(q) => s.resolvers > 0 && q !in s.spawned
    case ResolverDone => s.resolvers > 0
    case Register(q, _) => q in s.queries && s.queries[q].Spawned?
    case Unregister(q) => q in s.queries && s.queries[q].Registered?
    case QueryDone(q) => q in s.queries && !s.queries[q].Registered?
    case Answer(_, _, _) => s.reader.Reading? && !s.waiter.NotStarted?
    case Close => s.reader.Closing?
    case ProbeDone => s.probes > if s.reader.Closing? && s.reader.startProbe then 1 else 0
    case Release => s.waiter.Waiting? && s.count == 0
  }

  function Next(s: State, step: Step, validate: bool): State
    requires Enabled(s, step)
  {
    match step
    case StartResolver => s.(toStart := s.toStart - 1, resolvers := s.resolvers + 1, count := s.count + 1)
    case StartWaiter => s.(waiter := Waiting)
    case SpawnQuery(q) =>
      s.(queries := s.queries[q := Spawned], spawned := s.spawned + {q}, count := s.count + 1)
    case ResolverDone => s.(resolvers := s.resolvers - 1, count := s.count - 1)
    case Register(q, tx) =>
      s.(queries := s.queries[q := Registered(tx)], pending := s.pending[tx := q])
    case Unregister(q) =>
      s.(queries := s.queries[q := Unregistered], pending := s.pending - {s.queries[q].tx})
    case QueryDone(q) => s.(queries := s.queries - {q}, count := s.count - 1)
    case Answer(tx, ip, valid) =>
      if tx !in s.pending then s
      else if valid && validate && ip !in s.probed then
        s.(pending := s.pending - {tx}, probed := s.probed + {ip},
           probes := s.probes + 1, count := s.count + 1, reader := Closing(s.pending[tx], true))
      else s.(pending := s.pending - {tx}, reader := Closing(s.pending[tx], false))
    case Close => s.(closed := s.closed + multiset{s.reader.q}, reader := Reading)
    case ProbeDone => s.(probes := s.probes - 1, count := s.count - 1)
    case Release => s.(waiter := Released)
  }

  /** Every pending entry belongs to a live query that waits under it. */
  ghost predicate Tied(s: State) {
    && (forall tx <- s.pending :: s.pending[tx] in s.queries && s.queries[s.pending[tx]] == Registered(tx))
    && (forall q <- s.queries :: q in s.spawned)
  }

  /** The query's channel is out of everyone's reach: no entry holds it, and the query will not make one. */
  ghost predicate Taken(s: State, q: Id) {
    && q in s.spawned
    && (q in s.queries ==> !s.queries[q].Spawned?)
    && (forall tx <- s.pending :: s.pending[tx] != q)
  }

  /** A channel is closed at most once, and only after its entry is gone. */
  ghost predicate ClosedOnce(s: State) {
    && (forall q <- s.closed :: s.closed[q] == 1 && Taken(s, q))
    && (s.reader.Closing? ==> Taken(s, s.reader.q) && s.reader.q !in s.closed)
  }

  /** How many queries have still to call Done. */
  function Live(queries: map<Id, Phase>): nat {
    |queries|
  }

  /** The count is that of the goroutines that will still call Done. */
  ghost predicate Counted(s: State) {
    && s.count == s.resolvers + Live(s.queries) + s.probes
    && (s.reader.Closing? && s.reader.startProbe ==> s.probes > 0)
    && (!s.waiter.NotStarted? ==> s.toStart == 0)
    && (s.waiter.Released? ==> s.count == 0)
  }

  ghost predicate Inv(s: State) {
    Counted(s) && Tied(s) && ClosedOnce(s)
  }

  lemma StepKeepsTied(s: State, step: Step, validate: bool)
    requires Tied(s) && Enabled(s, step)
    ensures Tied(Next(s, step, validate))
  {
  }

  lemma StepKeepsClosed(s: State, step: Step, validate: bool)
    requires Tied(s) && ClosedOnce(s) && Enabled(s, step)
    ensures ClosedOnce(Next(s, step, validate))
  {
  }

  lemma StepKeepsCount(s: State, step: Step, validate: bool)
    requires Counted(s) && Tied(s) && Enabled(s, step)
    ensures Counted(Next(s, step, validate))
  {
    assert forall q <- s.queries :: q in s.spawned;
    hide Live, Tied;
    match step
    case Register(q, tx) => UpdateSize(s.queries, q, Registered(tx));
    case Unregister(q) => UpdateSize(s.queries, q, Unregistered);
    case QueryDone(q) => RemoveSize(s.queries, q);
    case SpawnQuery(q) => UpdateSize(s.queries, q, Spawned);
    case Answer(tx, _, _) => PendingIsLive(s, tx);
    case _ =>
  }

  lemma StepKeepsInv(s: State, step: Step, validate: bool)
    requires Inv(s) && Enabled(s, step)
    ensures Inv(Next(s, step, validate))
  {
    hide Tied, ClosedOnce;
    StepKeepsTied(s, step, validate);
    StepKeepsClosed(s, step, validate);
    hide Next;
    StepKeepsCount(s, step, validate);
  }

  lemma UpdateSize(m: map<Id, Phase>, q: Id, p: Phase)
    ensures Live(m[q := p]) == if q in m then Live(m) else Live(m) + 1
  {
    assert m[q := p].Keys == m.Keys + {q};
  }

  lemma RemoveSize(m: map<Id, Phase>, q: Id)
    requires q in m
    ensures Live(m - {q}) == Live(m) - 1
  {
    assert (m - {q}).Keys == m.Keys - {q};
  }

  /** A pending entry means that a query is still counted. */
  lemma PendingIsLive(s: State, tx: Tx)
    requires Tied(s)
    ensures tx in s.pending ==> Live(s.queries) > 0
  {
    if tx in s.pending {
      assert s.pending[tx] in s.queries;
    }
  }

  lemma PendingIsCounted(s: State)
    requires Inv(s)
    ensures s.pending != map[] ==> s.count > 0
  {
    if tx :| tx in s.pending {
      PendingIsLive(s, tx);
    }
  }

  /** Once the count is zero with all resolvers started, nothing is left that could raise it: whatever
      happens next, it stays zero. A pending entry holds the count up, so an answer that finds one cannot
      come after. */
  lemma ZeroStaysZero(s: State, step: Step, validate: bool)
    requires Inv(s) && Enabled(s, step) && s.count == 0 && !s.waiter.NotStarted?
    ensures s.pending == map[]
    ensures Next(s, step, validate).count == 0 && !Next(s, step, validate).waiter.NotStarted?
    ensures s.resolvers == 0 && s.queries == map[] && s.probes == 0
  {
    PendingIsCounted(s);
    NoQueries(s);
  }

  /** What an answer leads to, all the way: it wakes the query that waits under its transaction, takes that entry
      and no other, and the reader then closes the channel of that query, for the first time. A probe is
      counted exactly for a valid address that is to be validated and was not probed before. */
  lemma AnswerWakes(s: State, tx: Tx, ip: string, valid: bool, validate: bool)
    requires Inv(s) && s.reader.Reading? && !s.waiter.NotStarted? && tx in s.pending
    ensures var q := s.pending[tx];
            var found := Next(s, Answer(tx, ip, valid), validate);
            && q in s.queries && s.queries[q] == Registered(tx) && q !in s.closed
            && tx !in found.pending
            && (forall tx' :: tx' in found.pending <==> tx' in s.pending && tx' != tx)
            && (forall tx' <- found.pending :: found.pending[tx'] == s.pending[tx'])
            && found.reader.Closing? && found.reader.q == q && found.closed == s.closed && found.queries == s.queries
            && var woken := Next(found, Close, validate);
            && woken == found.(reader := Reading, closed := woken.closed)
            && woken.closed == s.closed + multiset{q} && woken.closed[q] == 1
    ensures var found, launch := Next(s, Answer(tx, ip, valid), validate), valid && validate && ip !in s.probed;
            && found.reader.Closing? && found.reader.startProbe == launch
            && found.count == s.count + (if launch then 1 else 0)
            && found.probes == s.probes + (if launch then 1 else 0)
            && found.probed == if launch then s.probed + {ip} else s.probed
  {
    assert s.pending[tx] in s.queries;
    assert s.pending[tx] !in s.closed;
  }

  /** An answer that nothing waits for changes nothing, and a query waits under the transaction it drew until it
      is answered or gives up. */
  lemma QueryWaits(s: State, q: Id, tx: Tx, ip: string, valid: bool, validate: bool)
    ensures Enabled(s, Answer(tx, ip, valid)) && tx !in s.pending ==> Next(s, Answer(tx, ip, valid), validate) == s
    ensures Enabled(s, Register(q, tx)) ==>
      var s' := Next(s, Register(q, tx), validate);
      tx in s'.pending && s'.pending[tx] == q && q in s'.queries && s'.queries[q] == Registered(tx)
    ensures Enabled(s, Unregister(q)) ==> Next(s, Unregister(q), validate).pending == s.pending - {s.queries[q].tx}
  {
  }

  ghost predicate Run(states: seq<State>, steps: seq<Step>, servers: nat, validate: bool) {
    && |states| == |steps| + 1
    && states[0] == Initial(servers)
    && forall k | 0 <= k < |steps| ::
      Enabled(states[k], steps[k]) && states[k + 1] == Next(states[k], steps[k], validate)
  }

  /** For any number of servers and any answers, repeated or late: the count is that of the running
      goroutines, and no done channel is closed twice. */
  lemma {:induction false} RunSafe(states: seq<State>, steps: seq<Step>, servers: nat, validate: bool, k: nat)
    requires Run(states, steps, servers, validate) && k <= |steps|
    ensures Inv(states[k]) && states[k].count >= 0
    ensures forall q <- states[k].closed :: states[k].closed[q] == 1
  {
    if k > 0 {
      RunSafe(states, steps, servers, validate, k - 1);
      StepKeepsInv(states[k - 1], steps[k - 1], validate);
    }
  }

  /** The wait group is not reused: once it is waited for and reaches zero it is zero for good, so the
      read is ended only when no resolver, query or probe is left, and none starts after. */
  lemma {:induction false} RunSettles(states: seq<State>, steps: seq<Step>, servers: nat, validate: bool,
                                      i: nat, k: nat)
    requires Run(states, steps, servers, validate) && i <= k <= |steps|
    requires states[i].count == 0 && !states[i].waiter.NotStarted?
    ensures states[k].count == 0 && !states[k].waiter.NotStarted?
    ensures states[k].resolvers == 0 && states[k].queries == map[] && states[k].probes == 0
  {
    hide Next, Enabled, Tied, ClosedOnce;
    RunSafe(states, steps, servers, validate, k);
    if i < k {
      RunSettles(states, steps, servers, validate, i, k - 1);
      RunSafe(states, steps, servers, validate, k - 1);
      ZeroStaysZero(states[k - 1], steps[k - 1], validate);
    }
    NoQueries(states[k]);
  }

  lemma NoQueries(s: State)
    requires Inv(s) && s.count == 0
    ensures s.resolvers == 0 && s.queries == map[] && s.probes == 0
  {
    assert |s.queries| == 0;
  }

  /** A released read means a settled call. */
  lemma ReleasedIsSettled(states: seq<State>, steps: seq<Step>, servers: nat, validate: bool, k: nat)
    requires Run(states, steps, servers, validate) && k <= |steps| && states[k].waiter.Released?
    ensures states[k].resolvers == 0 && states[k].queries == map[] && states[k].probes == 0
    ensures states[k].toStart == 0
  {
    RunSafe(states, steps, servers, validate, k);
    NoQueries(states[k]);
  }

  /** The queries that answers found in the first `k` steps. */
  ghost function FoundBy(states: seq<State>, steps: seq<Step>, k: nat): multiset<Id>
    requires k <= |steps| && k <= |states|
  {
    if k == 0 then multiset{}
    else
      var step, pending := steps[k - 1], states[k - 1].pending;
      FoundBy(states, steps, k - 1)
      + if step.Answer? && step.tx in pending then multiset{pending[step.tx]} else multiset{}
  }

  /** How many probes ended. */
  ghost function ProbesDone(steps: seq<Step>): nat {
    if steps == [] then 0 else ProbesDone(steps[..|steps| - 1]) + if steps[|steps| - 1].ProbeDone? then 1 else 0
  }

  /** The closed channels are exactly those of the queries that were answered, the one that the reader is
      about to close included; and each address that was taken up is probed exactly once. */
  lemma {:induction false} RunAnswers(states: seq<State>, steps: seq<Step>, servers: nat, validate: bool, k: nat)
    requires Run(states, steps, servers, validate) && k <= |steps|
    ensures var s := states[k];
            && FoundBy(states, steps, k) == ClosedSoon(s)
            && |s.probed| == s.probes + ProbesDone(steps[..k])
  {
    if k > 0 {
      RunAnswers(states, steps, servers, validate, k - 1);
      assert steps[..k][..k - 1] == steps[..k - 1];
      var s, step := states[k - 1], steps[k - 1];
      assert Enabled(s, step) && states[k] == Next(s, step, validate);
      hide Run, FoundBy, ProbesDone, Enabled, Next, ClosedSoon;
      FoundNext(states, steps, k - 1);
      DoneNext(steps[..k]);
      StepAnswers(s, step, validate);
    } else {
      assert states[0] == Initial(servers);
    }
  }

  /** The closed channels, and the one that the reader is about to close. */
  ghost function ClosedSoon(s: State): multiset<Id> {
    if s.reader.Closing? then s.closed + multiset{s.reader.q} else s.closed
  }

  lemma StepAnswers(s: State, step: Step, validate: bool)
    requires Enabled(s, step)
    ensures var s' := Next(s, step, validate);
            && ClosedSoon(s') == ClosedSoon(s)
               + (if step.Answer? && step.tx in s.pending then multiset{s.pending[step.tx]} else multiset{})
            && |s'.probed| - s'.probes == |s.probed| - s.probes + if step.ProbeDone? then 1 else 0
  {
    if step.Answer? {
      OneMoreProbed(s.probed, step.ip);
    }
  }

  lemma FoundNext(states: seq<State>, steps: seq<Step>, k: nat)
    requires k < |steps| && k < |states|
    ensures var step, pending := steps[k], states[k].pending;
            FoundBy(states, steps, k + 1) == FoundBy(states, steps, k)
              + if step.Answer? && step.tx in pending then multiset{pending[step.tx]} else multiset{}
  {
  }

  lemma DoneNext(steps: seq<Step>)
    requires steps != []
    ensures ProbesDone(steps) == ProbesDone(steps[..|steps| - 1]) + if steps[|steps| - 1].ProbeDone? then 1 else 0
  {
  }

  lemma OneMoreProbed(probed: set<string>, ip: string)
    ensures ip !in probed ==> |probed + {ip}| == |probed| + 1
  {
  }
}
