/** The window of module `PacketWindow` against an unbounded log: packets are numbered by integers that
    never wrap, and nothing that was accepted is forgotten before a resync. Over any run the window
    answers as the log does. */
module PacketLog {
  import opened Wrappers
  import opened PacketWindow
  import opened Modular

  datatype Log = Log(head: int, span: nat, got: map<int, Packet>, started: bool, resync: bool)

  /** A call on the bucket. `added` is the capacity that one growth adds. */
  datatype Op = AddOp(n: int, pkt: Packet) | ResyncOp | GrowOp(added: nat)

  /** The log after packet `n` arrives, and why it is refused if it is. */
  function LogAdd(c: Layout, l: Log, pkt: Packet, n: int): (Log, Result<Packet, Error>) {
    if |pkt| > c.maxLen then (l, Err(PacketTooLarge))
    else if !l.started || l.resync then (Log(n, l.span, map[n := pkt], true, false), Ok(pkt))
    else if n > l.head then (l.(head := n, got := l.got[n := pkt]), Ok(pkt))
    else if l.head - n >= l.span then (l, Err(PacketTooOld))
    else if n in l.got then (l, Err(if |l.got[n]| != |pkt| then RTXPacketSize else RTXPacket))
    else (l.(got := l.got[n := pkt]), Ok(pkt))
  }

  /** Packet `n` in the log, as far as the window reaches. */
  function LogLookup(l: Log, n: int): Result<Packet, Error> {
    if n > l.head then Err(PacketTooNew)
    else if l.head - n >= l.span then Err(PacketTooOld)
    else if n !in l.got then Err(PacketSizeInvalid)
    else Ok(l.got[n])
  }

  /** A growth makes room behind the window; what had left the window does not come back. */
  function LogGrow(l: Log, added: nat): Log {
    l.(span := l.span + added, got := map n | n in l.got && l.head - n < l.span :: l.got[n])
  }

  function LogStep(c: Layout, l: Log, op: Op): Log {
    match op
    case AddOp(n, pkt) => LogAdd(c, l, pkt, n).0
    case ResyncOp => l.(resync := true)
    case GrowOp(added) => LogGrow(l, added)
  }

  function WindowStep(c: Layout, w: Window, op: Op): Window
    requires c.Valid() && w.head < c.range
  {
    match op
    case AddOp(n, pkt) => Add(c, w, pkt, Wire(c.range, n)).0
    case ResyncOp => w.(resync := true)
    case GrowOp(added) => w.(span := w.span + added)
  }

  /** What the callers of the bucket keep to: packets carry their numbers, a number is less than half
      the range away from the head, and the capacity stays within half the range. */
  ghost predicate Allowed(c: Layout, l: Log, op: Op)
    requires c.Valid()
  {
    match op
    case AddOp(n, pkt) =>
      && Labelled(c, pkt, Wire(c.range, n))
      && (l.started && !l.resync ==> l.head - c.Half() < n <= l.head + c.Half())
    case ResyncOp => true
    case GrowOp(added) => l.span + added <= c.Half()
  }

  /** The window shows the part of the log that it reaches. */
  ghost predicate Tracks(c: Layout, w: Window, l: Log) {
    && ValidWindow(c, w)
    && w.span == l.span && w.started == l.started && w.resync == l.resync
    && (!l.started ==> l.got == map[])
    && (l.started ==> w.head == Wire(c.range, l.head))
    && (forall n <- l.got :: n <= l.head)
    && (l.started ==> forall n | l.head - l.span < n <= l.head :: Shows(c, w, l, n))
  }

  ghost predicate Shows(c: Layout, w: Window, l: Log, n: int)
    requires c.Valid()
  {
    && (n in l.got <==> Wire(c.range, n) in w.packets)
    && (n in l.got ==> w.packets[Wire(c.range, n)] == l.got[n])
  }

  lemma AddTracks(c: Layout, w: Window, l: Log, pkt: Packet, n: int)
    requires Tracks(c, w, l) && Allowed(c, l, AddOp(n, pkt))
    ensures Tracks(c, Add(c, w, pkt, Wire(c.range, n)).0, LogAdd(c, l, pkt, n).0)
    ensures Add(c, w, pkt, Wire(c.range, n)).1 == LogAdd(c, l, pkt, n).1
  {
    AddKeepsValid(c, w, pkt, Wire(c.range, n));
    if |pkt| <= c.maxLen {
      hide Add, Shows, ValidWindow;
      if !l.started || l.resync {
        RestartTracks(c, w, l, pkt, n);
      } else {
        SettledTracks(c, w, l, pkt, n);
      }
    }
  }

  lemma SettledTracks(c: Layout, w: Window, l: Log, pkt: Packet, n: int)
    requires Tracks(c, w, l) && Allowed(c, l, AddOp(n, pkt)) && |pkt| <= c.maxLen && l.started && !l.resync
    ensures var (w', got) := Add(c, w, pkt, Wire(c.range, n));
            var (l', want) := LogAdd(c, l, pkt, n);
            && got == want
            && w'.span == l'.span && w'.started && !w'.resync && w'.head == Wire(c.range, l'.head)
            && forall m | l'.head - l'.span < m <= l'.head :: Shows(c, w', l', m)
  {
    WireSub(c.range, n, l.head);
    WireSub(c.range, l.head, n);
    var w', l' := Add(c, w, pkt, Wire(c.range, n)).0, LogAdd(c, l, pkt, n).0;
    forall m | l'.head - l'.span < m <= l'.head
      ensures Shows(c, w', l', m)
    {
      AddShows(c, w, l, pkt, n, m);
    }
    if n <= l.head && l.head - n < l.span {
      assert Shows(c, w, l, n);
    }
  }

  lemma RestartTracks(c: Layout, w: Window, l: Log, pkt: Packet, n: int)
    requires Tracks(c, w, l) && |pkt| <= c.maxLen && (!l.started || l.resync)
    ensures var (w', got) := Add(c, w, pkt, Wire(c.range, n));
            var (l', want) := LogAdd(c, l, pkt, n);
            && got == want
            && w'.span == l'.span && w'.started && !w'.resync && w'.head == Wire(c.range, l'.head)
            && forall m | l'.head - l'.span < m <= l'.head :: Shows(c, w', l', m)
  {
    var sn := Wire(c.range, n);
    RestartWindow(c, w, pkt, sn);
    hide Add;
    forall m | n - l.span < m <= n
      ensures (m == n <==> Wire(c.range, m) == sn)
    {
      WireSub(c.range, n, m);
    }
  }

  lemma RestartWindow(c: Layout, w: Window, pkt: Packet, sn: nat)
    requires ValidWindow(c, w) && sn < c.range && |pkt| <= c.maxLen && (!w.started || w.resync)
    ensures Add(c, w, pkt, sn) == (Window(sn, w.span, map[sn := pkt], true, false), Ok(pkt))
  {
    var w1 := Rebase(c, w, sn);
    assert Sub(c.range, sn, w1.head) == 1;
    assert Retain(c, w1.packets, sn, w1.span) == map[];
  }

  lemma AddShows(c: Layout, w: Window, l: Log, pkt: Packet, n: int, m: int)
    requires Tracks(c, w, l) && Allowed(c, l, AddOp(n, pkt))
    requires |pkt| <= c.maxLen && l.started && !l.resync
    requires var l' := LogAdd(c, l, pkt, n).0; l'.head - l'.span < m <= l'.head
    ensures Shows(c, Add(c, w, pkt, Wire(c.range, n)).0, LogAdd(c, l, pkt, n).0, m)
  {
    if n > l.head {
      NewerShows(c, w, l, pkt, n, m);
    } else {
      LateShows(c, w, l, pkt, n, m);
    }
  }

  lemma NewerShows(c: Layout, w: Window, l: Log, pkt: Packet, n: int, m: int)
    requires Tracks(c, w, l) && Allowed(c, l, AddOp(n, pkt))
    requires |pkt| <= c.maxLen && l.started && !l.resync && n > l.head && n - l.span < m <= n
    ensures Shows(c, Add(c, w, pkt, Wire(c.range, n)).0, LogAdd(c, l, pkt, n).0, m)
  {
    WireSub(c.range, n, l.head);
    WireSub(c.range, n, m);
    WireSub(c.range, l.head, m);
    if m <= l.head {
      assert Shows(c, w, l, m);
    }
  }

  lemma LateShows(c: Layout, w: Window, l: Log, pkt: Packet, n: int, m: int)
    requires Tracks(c, w, l) && Allowed(c, l, AddOp(n, pkt))
    requires |pkt| <= c.maxLen && l.started && !l.resync && n <= l.head && l.head - l.span < m <= l.head
    ensures Shows(c, Add(c, w, pkt, Wire(c.range, n)).0, LogAdd(c, l, pkt, n).0, m)
  {
    hide Retain;
    WireSub(c.range, n, l.head);
    WireSub(c.range, l.head, n);
    WireSub(c.range, n, m);
    assert Shows(c, w, l, m);
    if l.head - n < l.span {
      assert Shows(c, w, l, n);
    }
  }

  lemma GrowTracks(c: Layout, w: Window, l: Log, added: nat)
    requires Tracks(c, w, l) && l.span + added <= c.Half()
    ensures Tracks(c, w.(span := w.span + added), LogGrow(l, added))
  {
    var w', l' := w.(span := w.span + added), LogGrow(l, added);
    if l.started {
      forall m | l'.head - l'.span < m <= l'.head
        ensures Shows(c, w', l', m)
      {
        WireSub(c.range, l.head, m);
        if l.head - m < l.span {
          assert Shows(c, w, l, m);
        }
      }
    }
  }

  /** The bucket after a run of calls. */
  function WindowRun(c: Layout, w: Window, ops: seq<Op>): (r: Window)
    requires c.Valid() && w.head < c.range
    ensures r.head < c.range
  {
    if ops == [] then w else WindowStep(c, WindowRun(c, w, ops[..|ops| - 1]), ops[|ops| - 1])
  }

  function LogRun(c: Layout, l: Log, ops: seq<Op>): Log {
    if ops == [] then l else LogStep(c, LogRun(c, l, ops[..|ops| - 1]), ops[|ops| - 1])
  }

  ghost predicate AllowedRun(c: Layout, l: Log, ops: seq<Op>)
    requires c.Valid()
  {
    forall k | 0 <= k < |ops| :: Allowed(c, LogRun(c, l, ops[..k]), ops[k])
  }

  lemma StepTracks(c: Layout, w: Window, l: Log, op: Op)
    requires Tracks(c, w, l) && Allowed(c, l, op)
    ensures Tracks(c, WindowStep(c, w, op), LogStep(c, l, op))
  {
    match op
    case AddOp(n, pkt) => AddTracks(c, w, l, pkt, n);
    case ResyncOp =>
      forall n | l.started && l.head - l.span < n <= l.head
        ensures Shows(c, WindowStep(c, w, op), LogStep(c, l, op), n)
      {
        assert Shows(c, w, l, n);
      }
    case GrowOp(added) => GrowTracks(c, w, l, added);
  }

  /** Over every run the window shows the log. */
  lemma {:induction false} RunTracks(c: Layout, w: Window, l: Log, ops: seq<Op>)
    requires Tracks(c, w, l) && AllowedRun(c, l, ops)
    ensures Tracks(c, WindowRun(c, w, ops), LogRun(c, l, ops))
  {
    if ops != [] {
      hide Shows, Allowed, WindowStep, LogStep;
      var before := ops[..|ops| - 1];
      assert forall k | 0 <= k < |before| :: before[..k] == ops[..k];
      RunTracks(c, w, l, before);
      StepTracks(c, WindowRun(c, w, before), LogRun(c, l, before), ops[|ops| - 1]);
    }
  }

  /** A lookup in the window is a lookup in the log. */
  lemma LookupTracks(c: Layout, w: Window, l: Log, n: int)
    requires Tracks(c, w, l) && l.started && l.head - c.Half() <= n < l.head + c.Half()
    ensures Lookup(c, w, Wire(c.range, n)) == LogLookup(l, n)
  {
    WireSub(c.range, l.head, n);
    if l.head - l.span < n <= l.head {
      assert Shows(c, w, l, n);
    }
  }

  lemma {:induction false} LogStays(c: Layout, l: Log, ops: seq<Op>)
    requires l.started && !l.resync && ResyncOp !in ops && (forall m <- l.got :: m <= l.head)
    ensures var l' := LogRun(c, l, ops);
            && l'.started && !l'.resync && l.span <= l'.span && l.head <= l'.head
            && forall m <- l'.got :: m <= l'.head
  {
    if ops != [] {
      assert ops[|ops| - 1] in ops;
      LogStays(c, l, ops[..|ops| - 1]);
    }
  }

  /** Without a resync the log only grows, except for what a growth of the ring finds outside it. */
  lemma {:induction false} LogKeeps(c: Layout, l: Log, ops: seq<Op>, n: int)
    requires l.started && !l.resync && ResyncOp !in ops && (forall m <- l.got :: m <= l.head)
    requires n in l.got && LogRun(c, l, ops).head - n < l.span
    ensures var l' := LogRun(c, l, ops);
            n in l'.got && l'.got[n] == l.got[n]
    decreases |ops|
  {
    if ops != [] {
      var before := ops[..|ops| - 1];
      assert ops[|ops| - 1] in ops;
      LogStays(c, l, before);
      LogStays(c, LogRun(c, l, before), [ops[|ops| - 1]]);
      LogKeeps(c, l, before, n);
    }
  }

  /** A stored packet is retrievable, byte for byte, until a resync or until the head is `span` past it:
      whatever is added in between, duplicates of it included, and however often the ring grows. */
  lemma RunRetains(c: Layout, w: Window, l: Log, ops: seq<Op>, n: int)
    requires Tracks(c, w, l) && l.started && !l.resync && AllowedRun(c, l, ops) && ResyncOp !in ops
    requires n <= l.head && Lookup(c, w, Wire(c.range, n)).Ok? && l.head - n < l.span
    requires LogRun(c, l, ops).head - n < l.span
    ensures Lookup(c, WindowRun(c, w, ops), Wire(c.range, n)) == Lookup(c, w, Wire(c.range, n))
  {
    LookupTracks(c, w, l, n);
    LogStays(c, l, ops);
    LogKeeps(c, l, ops, n);
    RunTracks(c, w, l, ops);
    LookupTracks(c, WindowRun(c, w, ops), LogRun(c, l, ops), n);
  }

  /** A logged packet that is still in the window is in the bucket, and what is not logged is not. */
  lemma LoggedIsFound(c: Layout, w: Window, l: Log, ops: seq<Op>, n: int)
    requires Tracks(c, w, l) && AllowedRun(c, l, ops)
    requires var l' := LogRun(c, l, ops); l'.started && l'.head - l'.span < n <= l'.head
    ensures var w', l', sn := WindowRun(c, w, ops), LogRun(c, l, ops), Wire(c.range, n);
            && (n in l'.got <==> sn in w'.packets)
            && (n in l'.got ==> w'.packets[sn] == l'.got[n] && Lookup(c, w', sn) == Ok(l'.got[n]))
  {
    RunTracks(c, w, l, ops);
    assert Shows(c, WindowRun(c, w, ops), LogRun(c, l, ops), n);
    LookupMeans(c, WindowRun(c, w, ops), Wire(c.range, n));
  }

  /** A packet that is accepted is in the log under its number, with its bytes. */
  lemma AcceptedIsLogged(c: Layout, w: Window, l: Log, pkt: Packet, n: int)
    requires Tracks(c, w, l) && Allowed(c, l, AddOp(n, pkt)) && Add(c, w, pkt, Wire(c.range, n)).1.Ok?
    ensures var l' := LogStep(c, l, AddOp(n, pkt));
            && l'.started && !l'.resync && n in l'.got && l'.got[n] == pkt && l'.head - l'.span < n <= l'.head
  {
    hide Shows;
    AddTracks(c, w, l, pkt, n);
  }

  /** A resync forgets all but the packet that follows it. */
  lemma ResyncForgets(c: Layout, w: Window, l: Log, pkt: Packet, n: int)
    requires Tracks(c, w, l) && |pkt| <= c.maxLen && Labelled(c, pkt, Wire(c.range, n))
    ensures WindowRun(c, w, [ResyncOp] + [AddOp(n, pkt)]).packets == map[Wire(c.range, n) := pkt]
  {
    hide Shows;
    var ops := [ResyncOp] + [AddOp(n, pkt)];
    assert ops[..1] == [ResyncOp] && [ResyncOp][..0] == [];
    AddMeans(c, w.(resync := true), pkt, Wire(c.range, n));
    assert WindowRun(c, w, [ResyncOp]) == w.(resync := true);
  }

  /** A fresh bucket shows the empty log. */
  lemma FreshTracks(c: Layout, span: nat)
    requires c.Valid() && 0 < span <= c.Half()
    ensures Tracks(c, Window(0, span, map[], false, false), Log(0, span, map[], false, false))
  {
  }
}
