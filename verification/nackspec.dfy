/** What the NACK queue of pkg/nack/nack.go promises, on values: when an entry is sent or dropped, and
    what the queue holds. Clock readings are parameters, in one unit. */
module NackRules {
  import opened Wrappers
  import opened Modular
  import opened NackPairs

  /** The parameters of a queue. `backoff` is the interval after `tries` sends, before it is capped; it
      stands for the round-trip time multiplied by a power of the backoff factor. */
  datatype Params = Params(maxTries: nat, minInterval: int, maxInterval: int, maxLifetime: int,
                           backoff: (nat, nat) -> int)

  /** A sequence number that is missing. */
  datatype Entry = Entry(seqNum: nat, bornAt: int, tries: nat, lastNackedAt: int)

  datatype Verdict = Expired | Waiting | Due

  /** How long after the last send, or after its birth, an entry is to be sent. */
  function RequiredInterval(p: Params, tries: nat, rtt: nat): (r: int)
    ensures r >= p.minInterval
  {
    var spacing := if tries == 0 then 0 else
      var b := p.backoff(rtt, tries - 1);
      if b < p.maxInterval then b else p.maxInterval;
    if spacing < p.minInterval then p.minInterval else spacing
  }

  /** `now` is read once a round; `clock` is what the clock says when the entry itself is looked at. */
  function Judge(p: Params, e: Entry, now: int, clock: int, rtt: nat): Verdict {
    if e.tries >= p.maxTries || clock - e.bornAt > p.maxLifetime then Expired
    else if now - e.lastNackedAt < RequiredInterval(p, e.tries, rtt) then Waiting
    else Due
  }

  function After(p: Params, e: Entry, now: int, clock: int, rtt: nat): Entry {
    if Judge(p, e, now, clock, rtt) == Due then e.(tries := e.tries + 1, lastNackedAt := now) else e
  }

  /** Long enough has passed since `since`: at least the least interval, and, once the entry was sent, at least
      the backoff or the cap, whichever is less. */
  predicate Waits(p: Params, since: int, tries: nat, l: Look) {
    var elapsed := l.now - since;
    && elapsed >= p.minInterval
    && if tries == 0 then elapsed >= 0 else elapsed >= p.backoff(l.rtt, tries - 1) || elapsed >= p.maxInterval
  }

  /** An entry expires when its tries are used up or its life is over; one that has not is due exactly when
      it has waited. */
  lemma JudgeIff(p: Params, e: Entry, l: Look)
    ensures var v := Judge(p, e, l.now, l.clock, l.rtt);
            var expired := e.tries >= p.maxTries || l.clock - e.bornAt > p.maxLifetime;
            && (v == Expired <==> expired)
            && (v == Due <==> !expired && Waits(p, e.lastNackedAt, e.tries, l))
            && After(p, e, l.now, l.clock, l.rtt)
               == if v == Due then Entry(e.seqNum, e.bornAt, e.tries + 1, l.now) else e
  {
  }

  /** One look at an entry. */
  datatype Look = Look(now: int, clock: int, rtt: nat)

  /** The entry after a run of looks. */
  function AfterAll(p: Params, e: Entry, looks: seq<Look>): Entry {
    if looks == [] then e
    else
      var l := looks[|looks| - 1];
      After(p, AfterAll(p, e, looks[..|looks| - 1]), l.now, l.clock, l.rtt)
  }

  /** The looks of a run at which the entry was sent. */
  function Sends(p: Params, e: Entry, looks: seq<Look>): (s: seq<Look>)
  {
    if looks == [] then []
    else
      var before, l := looks[..|looks| - 1], looks[|looks| - 1];
      Sends(p, e, before) + if Judge(p, AfterAll(p, e, before), l.now, l.clock, l.rtt) == Due then [l] else []
  }

  /** The spacing that a new entry keeps: the first send waits from its birth on, each later one from the
      send before it. */
  ghost predicate WellSpaced(p: Params, e: Entry, sends: seq<Look>) {
    forall i | 0 <= i < |sends| :: Waits(p, Since(e, sends, i), e.tries + i, sends[i])
  }

  function Since(e: Entry, sends: seq<Look>, i: nat): int
    requires i <= |sends|
  {
    if i == 0 then e.lastNackedAt else sends[i - 1].now
  }

  /** Over any run of looks, whatever the clock does, an entry is sent at most `maxTries` times in its
      life, with the required interval between sends. */
  lemma {:induction false} SendsBounded(p: Params, e: Entry, looks: seq<Look>)
    requires e.tries <= p.maxTries
    ensures var sends, e' := Sends(p, e, looks), AfterAll(p, e, looks);
            && e'.tries == e.tries + |sends| <= p.maxTries
            && e' == e.(tries := e'.tries, lastNackedAt := e'.lastNackedAt)
            && e'.lastNackedAt == (if sends == [] then e.lastNackedAt else sends[|sends| - 1].now)
            && WellSpaced(p, e, sends)
  {
    hide WellSpaced;
    if looks == [] {
      NoSends(p, e);
    } else {
      var before, l := looks[..|looks| - 1], looks[|looks| - 1];
      SendsBounded(p, e, before);
      if Judge(p, AfterAll(p, e, before), l.now, l.clock, l.rtt) == Due {
        WellSpacedNext(p, e, Sends(p, e, before), l);
      } else {
        assert Sends(p, e, looks) == Sends(p, e, before);
      }
    }
  }

  lemma NoSends(p: Params, e: Entry)
    ensures WellSpaced(p, e, [])
  {
  }

  lemma WellSpacedNext(p: Params, e: Entry, sends: seq<Look>, l: Look)
    requires WellSpaced(p, e, sends) && Waits(p, Since(e, sends, |sends|), e.tries + |sends|, l)
    ensures WellSpaced(p, e, sends + [l])
  {
    hide Waits;
    var next := sends + [l];
    forall i | 0 <= i < |next|
      ensures Waits(p, Since(e, next, i), e.tries + i, next[i])
    {
      assert Since(e, next, i) == Since(e, sends, i);
      assert next[i] == if i < |sends| then sends[i] else l;
      assert i < |sends| ==> Waits(p, Since(e, sends, i), e.tries + i, sends[i]);
    }
  }

  /** And it is sent whenever that interval has passed and it has not expired. */
  lemma SentIff(p: Params, e: Entry, looks: seq<Look>, l: Look)
    requires e.tries <= p.maxTries
    ensures var sends := Sends(p, e, looks);
            Sends(p, e, looks + [l]) ==
              if e.tries + |sends| < p.maxTries && l.clock - e.bornAt <= p.maxLifetime
                 && Waits(p, Since(e, sends, |sends|), e.tries + |sends|, l)
              then sends + [l] else sends
  {
    hide WellSpaced, Judge, After, Waits, AfterAll, Sends;
    SendsBounded(p, e, looks);
    JudgeIff(p, AfterAll(p, e, looks), l);
    SendsNext(p, e, looks, l);
  }

  lemma SendsNext(p: Params, e: Entry, looks: seq<Look>, l: Look)
    ensures var sends := Sends(p, e, looks);
            Sends(p, e, looks + [l]) ==
              if Judge(p, AfterAll(p, e, looks), l.now, l.clock, l.rtt) == Due then sends + [l] else sends
  {
    hide Judge, After;
    assert (looks + [l])[..|looks|] == looks;
    assert Sends(p, e, looks) + [] == Sends(p, e, looks);
  }

  /** However long the backoff, an entry that lives on is sent when it is looked at the longest interval after
      its last send. */
  lemma LiveIsSent(p: Params, e: Entry, looks: seq<Look>, l: Look)
    requires e.tries <= p.maxTries
    requires e.tries + |Sends(p, e, looks)| < p.maxTries && l.clock - e.bornAt <= p.maxLifetime
    requires var elapsed := l.now - Since(e, Sends(p, e, looks), |Sends(p, e, looks)|);
             elapsed >= 0 && elapsed >= p.minInterval && elapsed >= p.maxInterval
    ensures Sends(p, e, looks + [l]) == Sends(p, e, looks) + [l]
  {
    SentIff(p, e, looks, l);
  }

  /** Nothing is dropped early: an entry expires only when it was sent `maxTries` times or has outlived
      its lifetime. */
  lemma ExpiredIff(p: Params, e: Entry, looks: seq<Look>, l: Look)
    requires e.tries == 0
    ensures Judge(p, AfterAll(p, e, looks), l.now, l.clock, l.rtt) == Expired
      <==> (|Sends(p, e, looks)| >= p.maxTries || l.clock - e.bornAt > p.maxLifetime)
  {
    SendsBounded(p, e, looks);
  }

  /** The queue without its first entry for `sn`. */
  function RemoveFirst(q: seq<Entry>, sn: nat): seq<Entry> {
    if q == [] then []
    else if q[0].seqNum == sn then q[1..]
    else [q[0]] + RemoveFirst(q[1..], sn)
  }

  function RemoveEach(q: seq<Entry>, sns: seq<nat>): seq<Entry>
    decreases |sns|
  {
    if sns == [] then q else RemoveEach(RemoveFirst(q, sns[0]), sns[1..])
  }

  function Numbers(q: seq<Entry>): (r: seq<nat>)
    ensures |r| == |q| && forall i | 0 <= i < |q| :: r[i] == q[i].seqNum
  {
    seq(|q|, i requires 0 <= i < |q| => q[i].seqNum)
  }

  /** What each entry deserves in a round. */
  function Verdicts(p: Params, q: seq<Entry>, now: int, clocks: seq<int>, rtt: nat): (r: seq<Verdict>)
    requires |clocks| == |q|
    ensures |r| == |q| && forall i | 0 <= i < |q| :: r[i] == Judge(p, q[i], now, clocks[i], rtt)
  {
    seq(|q|, i requires 0 <= i < |q| => Judge(p, q[i], now, clocks[i], rtt))
  }

  /** The entries after a round looked at each. */
  function Looked(p: Params, q: seq<Entry>, now: int, clocks: seq<int>, rtt: nat): (r: seq<Entry>)
    requires |clocks| == |q|
    ensures |r| == |q| && forall i | 0 <= i < |q| :: r[i] == After(p, q[i], now, clocks[i], rtt)
  {
    seq(|q|, i requires 0 <= i < |q| => After(p, q[i], now, clocks[i], rtt))
  }

  /** The numbers of the entries with the given verdict, in queue order. */
  function NumbersOf(q: seq<Entry>, verdicts: seq<Verdict>, v: Verdict): seq<nat>
    requires |q| == |verdicts|
  {
    if q == [] then []
    else
      NumbersOf(q[..|q| - 1], verdicts[..|q| - 1], v) + if verdicts[|q| - 1] == v then [q[|q| - 1].seqNum] else []
  }

  lemma RoundStart(q: seq<Entry>, verdicts: seq<Verdict>, first: nat)
    requires |q| == |verdicts| && first < RANGE
    ensures NumbersOf(q[..0], verdicts[..0], Due) == [] && NumbersOf(q[..0], verdicts[..0], Expired) == []
    ensures InRange([]) && EncodeAll(first, []) == Start(first)
  {
  }

  lemma NumbersNext(q: seq<Entry>, verdicts: seq<Verdict>, i: nat, v: Verdict)
    requires i < |q| == |verdicts|
    ensures NumbersOf(q[..i + 1], verdicts[..i + 1], v)
         == NumbersOf(q[..i], verdicts[..i], v) + if verdicts[i] == v then [q[i].seqNum] else []
  {
    assert q[..i + 1][..i] == q[..i] && verdicts[..i + 1][..i] == verdicts[..i];
  }

  /** What a round leaves: the entries it looked at, without the numbers it found expired. */
  function Purged(p: Params, q: seq<Entry>, now: int, clocks: seq<int>, rtt: nat): seq<Entry>
    requires |clocks| == |q|
  {
    RemoveEach(Looked(p, q, now, clocks, rtt), NumbersOf(q, Verdicts(p, q, now, clocks, rtt), Expired))
  }

  /** The entries that are not expired, in queue order. */
  function Unexpired(q: seq<Entry>, verdicts: seq<Verdict>): seq<Entry>
    requires |q| == |verdicts|
  {
    if q == [] then []
    else
      Unexpired(q[..|q| - 1], verdicts[..|q| - 1]) + if verdicts[|q| - 1] != Expired then [q[|q| - 1]] else []
  }

  /** The places of the verdicts that are among `vs`, in queue order. */
  function Places(verdicts: seq<Verdict>, vs: set<Verdict>): (r: seq<nat>)
    ensures forall i :: i in r <==> 0 <= i < |verdicts| && verdicts[i] in vs
    ensures forall s, t | 0 <= s < t < |r| :: r[s] < r[t]
  {
    if verdicts == [] then []
    else
      var last := |verdicts| - 1;
      var before := Places(verdicts[..last], vs);
      assert forall t | 0 <= t < |before| :: before[t] in before;
      if verdicts[last] in vs then before + [last] else before
  }

  /** `some` are the elements of `all` at these places, one for one. */
  ghost predicate AtPlaces<T(!new)>(all: seq<T>, some: seq<T>, at: seq<nat>) {
    |some| == |at| && forall t | 0 <= t < |at| :: at[t] < |all| && some[t] == all[at[t]]
  }

  lemma AtMore<T(!new)>(all: seq<T>, x: T, some: seq<T>, at: seq<nat>)
    requires AtPlaces(all, some, at)
    ensures AtPlaces(all + [x], some, at) && AtPlaces(all + [x], some + [x], at + [|all|])
  {
  }

  /** Which numbers a round sends or drops: exactly those whose verdict says so, each once and in queue
      order. */
  lemma {:induction false} NumbersSorted(q: seq<Entry>, verdicts: seq<Verdict>, v: Verdict)
    requires |q| == |verdicts|
    ensures AtPlaces(Numbers(q), NumbersOf(q, verdicts, v), Places(verdicts, {v}))
  {
    hide Places, AtPlaces, Numbers;
    if q == [] {
      NoPlaces({v});
      assert Numbers(q) == [];
      NoneAtPlaces<nat>();
    } else {
      var q', v', b := q[..|q| - 1], verdicts[..|q| - 1], q[|q| - 1];
      NumbersSorted(q', v', v);
      PlacesStep(verdicts, {v});
      NumbersLast(q);
      var sns := NumbersOf(q', v', v);
      assert sns + [] == sns;
      AtMore(Numbers(q'), b.seqNum, sns, Places(v', {v}));
    }
  }

  /** And which entries it keeps. */
  lemma {:induction false} UnexpiredSorted(q: seq<Entry>, verdicts: seq<Verdict>)
    requires |q| == |verdicts|
    ensures AtPlaces(q, Unexpired(q, verdicts), Places(verdicts, {Waiting, Due}))
  {
    hide Places, AtPlaces;
    if q == [] {
      NoPlaces({Waiting, Due});
      NoneAtPlaces<Entry>();
    } else {
      var q', v', b := q[..|q| - 1], verdicts[..|q| - 1], q[|q| - 1];
      UnexpiredSorted(q', v');
      PlacesStep(verdicts, {Waiting, Due});
      var kept := Unexpired(q', v');
      assert kept + [] == kept && q == q' + [b];
      AtMore(q', b, kept, Places(v', {Waiting, Due}));
    }
  }

  lemma NumbersLast(q: seq<Entry>)
    requires q != []
    ensures Numbers(q) == Numbers(q[..|q| - 1]) + [q[|q| - 1].seqNum]
  {
  }

  lemma NoPlaces(vs: set<Verdict>)
    ensures Places([], vs) == []
  {
  }

  lemma NoneAtPlaces<T(!new)>()
    ensures AtPlaces<T>([], [], [])
  {
  }

  lemma PlacesStep(verdicts: seq<Verdict>, vs: set<Verdict>)
    requires verdicts != []
    ensures var last := |verdicts| - 1;
            Places(verdicts, vs) == (if verdicts[last] in vs then Places(verdicts[..last], vs) + [last]
                                     else Places(verdicts[..last], vs))
  {
  }

  lemma {:induction false} RemoveFirstAppend(q: seq<Entry>, b: Entry, sn: nat)
    ensures sn in Numbers(q) || b.seqNum != sn ==> RemoveFirst(q + [b], sn) == RemoveFirst(q, sn) + [b]
    ensures sn !in Numbers(q) && b.seqNum == sn ==> RemoveFirst(q + [b], sn) == q
  {
    if q == [] {
      assert q + [b] == [b];
    } else {
      RemoveFirstAppend(q[1..], b, sn);
      assert (q + [b])[1..] == q[1..] + [b];
      assert Numbers(q) == [q[0].seqNum] + Numbers(q[1..]);
      if sn !in Numbers(q) {
        assert [q[0]] + q[1..] == q;
      }
    }
  }

  /** Each of the numbers is still there when its turn to be removed comes. */
  ghost predicate Found(q: seq<Entry>, sns: seq<nat>)
    decreases |sns|
  {
    sns != [] ==> sns[0] in Numbers(q) && Found(RemoveFirst(q, sns[0]), sns[1..])
  }

  lemma {:induction false} RemoveEachAppend(q: seq<Entry>, b: Entry, sns: seq<nat>)
    requires Found(q, sns)
    ensures Found(q + [b], sns) && RemoveEach(q + [b], sns) == RemoveEach(q, sns) + [b]
    decreases |sns|
  {
    if sns != [] {
      RemoveFirstAppend(q, b, sns[0]);
      RemoveEachAppend(RemoveFirst(q, sns[0]), b, sns[1..]);
      assert Numbers(q + [b]) == Numbers(q) + [b.seqNum];
    }
  }

  lemma {:induction false} FoundLast(q: seq<Entry>, sns: seq<nat>, sn: nat)
    requires Found(q, sns) && sn in Numbers(RemoveEach(q, sns))
    ensures Found(q, sns + [sn])
    decreases |sns|
  {
    if sns == [] {
      assert sns + [sn] == [sn] && [sn][1..] == [];
    } else {
      assert (sns + [sn])[1..] == sns[1..] + [sn];
      FoundLast(RemoveFirst(q, sns[0]), sns[1..], sn);
    }
  }

  /** The expired numbers are all found. */
  lemma {:induction false} ExpiredFound(q: seq<Entry>, verdicts: seq<Verdict>)
    requires |q| == |verdicts|
    ensures Found(q, NumbersOf(q, verdicts, Expired))
  {
    if q != [] {
      var q', v', b := q[..|q| - 1], verdicts[..|q| - 1], q[|q| - 1];
      var purge := NumbersOf(q', v', Expired);
      assert q == q' + [b];
      ExpiredFound(q', v');
      RemoveEachAppend(q', b, purge);
      assert Numbers(RemoveEach(q', purge) + [b])[|RemoveEach(q', purge)|] == b.seqNum;
      FoundLast(q, purge, b.seqNum);
      assert purge + [] == purge;
    }
  }

  lemma {:induction false} RemoveEachLast(q: seq<Entry>, sns: seq<nat>, sn: nat)
    ensures RemoveEach(q, sns + [sn]) == RemoveFirst(RemoveEach(q, sns), sn)
    decreases |sns|
  {
    if sns == [] {
      assert sns + [sn] == [sn];
    } else {
      assert (sns + [sn])[1..] == sns[1..] + [sn];
      RemoveEachLast(RemoveFirst(q, sns[0]), sns[1..], sn);
    }
  }

  lemma {:induction false} NumbersWithin(q: seq<Entry>, verdicts: seq<Verdict>, v: Verdict)
    requires |q| == |verdicts|
    ensures forall sn <- NumbersOf(q, verdicts, v) :: sn in Numbers(q)
    ensures forall sn <- Numbers(Unexpired(q, verdicts)) :: sn in Numbers(q)
  {
    if q != [] {
      var q', v', b := q[..|q| - 1], verdicts[..|q| - 1], q[|q| - 1];
      NumbersWithin(q', v', v);
      assert Numbers(q) == Numbers(q') + [b.seqNum];
      assert Numbers(Unexpired(q', v') + [b]) == Numbers(Unexpired(q', v')) + [b.seqNum];
    }
  }

  /** Of the entries for one number the expired ones come first. */
  ghost predicate ExpiredFirst(q: seq<Entry>, verdicts: seq<Verdict>)
    requires |q| == |verdicts|
  {
    forall i, j | 0 <= i < j < |q| && q[i].seqNum == q[j].seqNum :: verdicts[j] == Expired ==> verdicts[i] == Expired
  }

  lemma {:induction false} StayingNumber(q: seq<Entry>, verdicts: seq<Verdict>, sn: nat)
    requires |q| == |verdicts|
    ensures sn in Numbers(Unexpired(q, verdicts)) <==>
      exists i :: 0 <= i < |q| && q[i].seqNum == sn && verdicts[i] != Expired
    ensures forall e <- Unexpired(q, verdicts) :: e in q
  {
    if q != [] {
      var q', v', b := q[..|q| - 1], verdicts[..|q| - 1], q[|q| - 1];
      StayingNumber(q', v', sn);
      var kept := Unexpired(q', v');
      assert Numbers(kept + [b]) == Numbers(kept) + [b.seqNum] && kept + [] == kept;
      assert forall i | 0 <= i < |q'| :: q[i] == q'[i] && verdicts[i] == v'[i];
    }
  }

  /** What one more entry at the end of the queue does to both sides. */
  lemma PurgeNext(q: seq<Entry>, verdicts: seq<Verdict>, b: Entry, v: Verdict)
    requires |q| == |verdicts|
    ensures var left, kept := RemoveEach(q, NumbersOf(q, verdicts, Expired)), Unexpired(q, verdicts);
            var q', v' := q + [b], verdicts + [v];
            && RemoveEach(q', NumbersOf(q', v', Expired))
               == (if v == Expired then RemoveFirst(left + [b], b.seqNum) else left + [b])
            && Unexpired(q', v') == if v == Expired then kept else kept + [b]
  {
    var purge, kept := NumbersOf(q, verdicts, Expired), Unexpired(q, verdicts);
    assert (q + [b])[..|q|] == q && (verdicts + [v])[..|q|] == verdicts;
    assert purge + [] == purge && kept + [] == kept;
    ExpiredFound(q, verdicts);
    RemoveEachAppend(q, b, purge);
    RemoveEachLast(q + [b], purge, b.seqNum);
  }

  lemma LastRemoved(left: seq<Entry>, kept: seq<Entry>, b: Entry)
    requires b !in kept
    ensures RemoveFirst(left + [b], b.seqNum) == kept <==> left == kept && b.seqNum !in Numbers(left)
  {
    RemoveFirstAppend(left, b, b.seqNum);
    assert b in RemoveFirst(left, b.seqNum) + [b];
  }

  lemma {:induction false} PurgeOfDistinct(q: seq<Entry>, verdicts: seq<Verdict>)
    requires |q| == |verdicts| && Distinct(q)
    ensures RemoveEach(q, NumbersOf(q, verdicts, Expired)) == Unexpired(q, verdicts) <==> ExpiredFirst(q, verdicts)
  {
    if q != [] {
      var q', v', b, v := q[..|q| - 1], verdicts[..|q| - 1], q[|q| - 1], verdicts[|q| - 1];
      assert b !in q';
      assert q == q' + [b] && verdicts == v' + [v];
      hide RemoveEach, RemoveFirst, NumbersOf, Unexpired, ExpiredFirst;
      PurgeOfDistinct(q', v');
      PurgeNext(q', v', b, v);
      StayingNumber(q', v', b.seqNum);
      ExpiredFirstNext(q', v', b, v);
      var left, kept := RemoveEach(q', NumbersOf(q', v', Expired)), Unexpired(q', v');
      if v == Expired {
        LastRemoved(left, kept, b);
      } else {
        SameEnds(left, kept, b);
      }
    }
  }

  lemma SameEnds(a: seq<Entry>, c: seq<Entry>, b: Entry)
    ensures a + [b] == c + [b] <==> a == c
  {
    if a + [b] == c + [b] {
      assert (a + [b])[..|a|] == a && (c + [b])[..|c|] == c;
    }
  }

  lemma ExpiredFirstNext(q: seq<Entry>, verdicts: seq<Verdict>, b: Entry, v: Verdict)
    requires |q| == |verdicts|
    ensures ExpiredFirst(q + [b], verdicts + [v]) <==>
      && ExpiredFirst(q, verdicts)
      && (v == Expired ==> !exists i :: 0 <= i < |q| && q[i].seqNum == b.seqNum && verdicts[i] != Expired)
  {
    var q', v' := q + [b], verdicts + [v];
    assert q'[|q|] == b && v'[|q|] == v;
    assert forall i | 0 <= i < |q| :: q'[i] == q[i] && v'[i] == verdicts[i];
  }

  /** The queue with its entries told apart by their places alone. */
  function Placed(q: seq<Entry>): (r: seq<Entry>)
    ensures |r| == |q| && Numbers(r) == Numbers(q)
  {
    seq(|q|, i requires 0 <= i < |q| => Entry(q[i].seqNum, i, 0, 0))
  }

  /** Removing the expired numbers one by one, first match each, removes exactly the expired entries, and
      keeps the order, exactly when no entry that stays comes before an expired one for the same number.
      Entries are told apart by their places, so two of equal value are still two. */
  lemma PurgeExactIff(q: seq<Entry>, verdicts: seq<Verdict>)
    requires |q| == |verdicts|
    ensures RemoveEach(Placed(q), NumbersOf(q, verdicts, Expired)) == Unexpired(Placed(q), verdicts)
      <==> ExpiredFirst(q, verdicts)
  {
    hide RemoveEach, NumbersOf, Unexpired;
    NumbersOfSame(q, Placed(q), verdicts, Expired);
    PurgeOfDistinct(Placed(q), verdicts);
    assert forall i | 0 <= i < |q| :: Numbers(q)[i] == q[i].seqNum && Numbers(Placed(q))[i] == Placed(q)[i].seqNum;
  }

  /** And then the queue is left with just the entries that stay. */
  lemma {:induction false} PurgeExact(q: seq<Entry>, verdicts: seq<Verdict>)
    requires |q| == |verdicts| && ExpiredFirst(q, verdicts)
    ensures RemoveEach(q, NumbersOf(q, verdicts, Expired)) == Unexpired(q, verdicts)
  {
    if q != [] {
      var q', v', b, v := q[..|q| - 1], verdicts[..|q| - 1], q[|q| - 1], verdicts[|q| - 1];
      assert q == q' + [b] && verdicts == v' + [v];
      ExpiredFirstNext(q', v', b, v);
      hide RemoveEach, NumbersOf, Unexpired, ExpiredFirst;
      PurgeExact(q', v');
      PurgeNext(q', v', b, v);
      StayingNumber(q', v', b.seqNum);
      RemoveFirstAppend(Unexpired(q', v'), b, b.seqNum);
    }
  }

  lemma DistinctIsExpiredFirst(q: seq<Entry>, verdicts: seq<Verdict>)
    requires |q| == |verdicts| && Distinct(Numbers(q))
    ensures ExpiredFirst(q, verdicts)
  {
    assert forall i | 0 <= i < |q| :: Numbers(q)[i] == q[i].seqNum;
  }

  /** The queue after numbers are pushed one at a time: the newest `capacity` of all. */
  lemma {:induction false} PushOneByOne(q: seq<nat>, sns: seq<nat>, capacity: nat)
    requires 0 < capacity
    ensures PushAll(q, sns, capacity) == if sns == [] then q else LastN(q + sns, capacity)
  {
    hide LastN;
    if sns != [] {
      var before, sn := sns[..|sns| - 1], sns[|sns| - 1];
      PushOneByOne(q, before, capacity);
      assert q + sns == q + before + [sn];
      if before == [] {
        assert q + before == q;
      } else {
        LastNTwice(q + before, sn, capacity);
      }
    }
  }

  lemma LastNTwice(s: seq<nat>, sn: nat, capacity: nat)
    requires 0 < capacity
    ensures LastN(LastN(s, capacity) + [sn], capacity) == LastN(s + [sn], capacity)
  {
  }

  /** What is left of a queue after pushes, one at a time. */
  function PushAll<T>(q: seq<T>, xs: seq<T>, capacity: nat): seq<T> {
    if xs == [] then q else LastN(PushAll(q, xs[..|xs| - 1], capacity) + [xs[|xs| - 1]], capacity)
  }

  /** New entries for these numbers, each born when the clock was read for it. */
  function Born(sns: seq<nat>, clocks: seq<int>): (r: seq<Entry>)
    requires |sns| == |clocks|
    ensures |r| == |sns| && Numbers(r) == sns
  {
    seq(|sns|, i requires 0 <= i < |sns| => Entry(sns[i], clocks[i], 0, clocks[i]))
  }

  lemma {:induction false} PushedNumbers(q: seq<Entry>, es: seq<Entry>, capacity: nat)
    ensures Numbers(PushAll(q, es, capacity)) == PushAll(Numbers(q), Numbers(es), capacity)
  {
    if es != [] {
      var before, e := es[..|es| - 1], es[|es| - 1];
      PushedNumbers(q, before, capacity);
      assert Numbers(es)[..|es| - 1] == Numbers(before);
      NumbersLastN(PushAll(q, before, capacity), e, capacity);
    }
  }

  lemma NumbersLastN(q: seq<Entry>, e: Entry, capacity: nat)
    ensures Numbers(LastN(q + [e], capacity)) == LastN(Numbers(q) + [e.seqNum], capacity)
  {
  }

  /** The number `k` before `end`. */
  function Earlier(end: nat, k: nat): nat
    requires end < RANGE
  {
    Sub(RANGE, end, Wire(RANGE, k))
  }

  /** The `count` numbers before `end`, oldest first. */
  function Before(end: nat, count: nat): (r: seq<nat>)
    requires end < RANGE
    ensures |r| == count
  {
    if count == 0 then [] else [Earlier(end, count)] + Before(end, count - 1)
  }

  lemma {:induction false} BeforeSuffix(end: nat, count: nat, few: nat)
    requires end < RANGE && few <= count
    ensures Before(end, count)[count - few..] == Before(end, few)
  {
    if few < count {
      BeforeSuffix(end, count - 1, few);
      assert Before(end, count)[count - few..] == Before(end, count - 1)[count - 1 - few..];
    }
  }

  /** Pushing only the newest numbers that fit is the same as pushing them all, one at a time. */
  lemma PushRangeIsPushAll(q: seq<nat>, end: nat, count: nat, capacity: nat)
    requires end < RANGE && |q| <= capacity && 0 < capacity
    ensures PushAll(q, Before(end, if count < capacity then count else capacity), capacity)
         == PushAll(q, Before(end, count), capacity)
  {
    if capacity <= count {
      hide PushAll, Before, LastN;
      PushOneByOne(q, Before(end, count), capacity);
      PushOneByOne(q, Before(end, capacity), capacity);
      BeforeSuffix(end, count, capacity);
      LastNOfSuffix(q, Before(end, count), capacity);
      LastNOfSuffix(q, Before(end, capacity), capacity);
      assert Before(end, capacity)[capacity - capacity..] == Before(end, capacity);
    }
  }

  lemma LastNOfSuffix(q: seq<nat>, s: seq<nat>, n: nat)
    requires n <= |s|
    ensures LastN(q + s, n) == s[|s| - n..]
  {
  }

  lemma {:induction false} DueIncreasing(q: seq<Entry>, verdicts: seq<Verdict>, first: nat, v: Verdict)
    requires |q| == |verdicts| && Increasing(first, Numbers(q))
    ensures Increasing(first, NumbersOf(q, verdicts, v))
  {
    if q != [] {
      var q', v', b := q[..|q| - 1], verdicts[..|q| - 1], q[|q| - 1];
      assert Numbers(q) == Numbers(q') + [b.seqNum];
      assert Increasing(first, Numbers(q'));
      DueIncreasing(q', v', first, v);
      NumbersWithin(q', v', v);
      IncreasingAppend(first, NumbersOf(q', v', v), Numbers(q'), b.seqNum);
    }
  }

  lemma IncreasingAppend(first: nat, some: seq<nat>, all: seq<nat>, sn: nat)
    requires Increasing(first, some) && Increasing(first, all + [sn]) && forall s <- some :: s in all
    ensures Increasing(first, some + [sn])
  {
    assert (all + [sn])[|all|] == sn;
    forall i | 0 <= i < |some|
      ensures Sub(RANGE, some[i], first) < Sub(RANGE, sn, first)
    {
      assert some[i] in some;
      var j :| 0 <= j < |all| && all[j] == some[i];
      assert (all + [sn])[j] == some[i] && (all + [sn])[|all|] == sn;
    }
  }

  /** One round over a queue in increasing serial order that spans less than 65519: the pairs report
      exactly the due numbers, each once, and no smaller number of pairs does. */
  lemma RoundExact(q: seq<Entry>, verdicts: seq<Verdict>, ps: seq<Pair>)
    requires |q| == |verdicts| && q != [] && q[0].seqNum < RANGE && Increasing(q[0].seqNum, Numbers(q))
    requires Sub(RANGE, Numbers(q)[|q| - 1], q[0].seqNum) < RANGE - 17
    ensures var dues := NumbersOf(q, verdicts, Due);
            && InRange(dues) && Distinct(dues)
            && (forall s: nat | s < RANGE ::
                  Reported(Finish(EncodeAll(q[0].seqNum, dues)), s) <==> s in dues)
            && ((forall s <- dues :: Reported(ps, s)) ==> |Finish(EncodeAll(q[0].seqNum, dues))| <= |ps|)
  {
    var dues := NumbersOf(q, verdicts, Due);
    DueIncreasing(q, verdicts, q[0].seqNum, Due);
    if dues != [] {
      NumbersWithin(q, verdicts, Due);
      DueSpan(q, dues[0]);
      DueSpan(q, dues[|dues| - 1]);
      if forall s <- dues :: Reported(ps, s) {
        EncodeMinimal(q[0].seqNum, dues, ps);
      }
    }
    ExactIff(q[0].seqNum, dues);
  }

  lemma DueSpan(q: seq<Entry>, sn: nat)
    requires q != [] && q[0].seqNum < RANGE && Increasing(q[0].seqNum, Numbers(q)) && sn in Numbers(q)
    ensures sn < RANGE && Sub(RANGE, sn, q[0].seqNum) <= Sub(RANGE, Numbers(q)[|q| - 1], q[0].seqNum)
  {
  }

  lemma {:induction false} NumbersOfSame(q: seq<Entry>, r: seq<Entry>, verdicts: seq<Verdict>, v: Verdict)
    requires |q| == |r| == |verdicts| && Numbers(q) == Numbers(r)
    ensures NumbersOf(q, verdicts, v) == NumbersOf(r, verdicts, v)
  {
    if q != [] {
      assert Numbers(q[..|q| - 1]) == Numbers(q)[..|q| - 1] == Numbers(r)[..|q| - 1] == Numbers(r[..|q| - 1]);
      assert q[|q| - 1].seqNum == Numbers(q)[|q| - 1];
      NumbersOfSame(q[..|q| - 1], r[..|q| - 1], verdicts[..|q| - 1], v);
    }
  }

  /** After a round over distinct numbers the queue holds exactly the entries that have not expired, as
      the round left them, in order. */
  lemma RoundPurges(p: Params, q: seq<Entry>, now: int, clocks: seq<int>, rtt: nat)
    requires |clocks| == |q| && Distinct(Numbers(q))
    ensures var verdicts, looked := Verdicts(p, q, now, clocks, rtt), Looked(p, q, now, clocks, rtt);
            Purged(p, q, now, clocks, rtt) == Unexpired(looked, verdicts)
  {
    var verdicts, looked := Verdicts(p, q, now, clocks, rtt), Looked(p, q, now, clocks, rtt);
    assert Numbers(q) == Numbers(looked);
    NumbersOfSame(q, looked, verdicts, Expired);
    DistinctIsExpiredFirst(looked, verdicts);
    PurgeExact(looked, verdicts);
  }
}
