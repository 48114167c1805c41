/** What the RED depacketizer of pkg/red/red.go promises: which packets it hands on. The receive history
    is a set of distances here, not a byte. */
module RedRecovery {
  import opened Wrappers
  import opened Modular
  import opened RedFormat

  const SEQ_RANGE: nat := 0x1_0000
  const TS_RANGE: nat := 0x1_0000_0000
  const MAX_RECOVER_COUNT: nat := 2

  /** An RTP header; `rest` is all that the depacketizer copies unseen. */
  datatype Header = Header(seqNum: nat, timestamp: nat, payloadType: nat, rest: int)

  datatype Packet = Packet(header: Header, payload: seq<byte>)

  predicate ValidPacket(p: Packet) {
    p.header.seqNum < SEQ_RANGE && p.header.timestamp < TS_RANGE
  }

  /** The redundant block that is `back` packets older than `pkt`, as a packet. */
  function Older(pkt: Packet, b: Block, back: nat): Packet
    requires ValidPacket(pkt) && b.tsOffset < TS_RANGE && back < SEQ_RANGE
  {
    Packet(pkt.header.(seqNum := Sub(SEQ_RANGE, pkt.header.seqNum, back),
                       timestamp := Sub(TS_RANGE, pkt.header.timestamp, b.tsOffset),
                       payloadType := b.pt),
           b.data)
  }

  /** The blocks at chosen distances, oldest first. Number i chooses the block i + 1 packets before the
      primary; there is no choosing a block more than 8 back. */
  function Pick(pkt: Packet, blocks: seq<Block>, chosen: set<nat>): seq<Packet>
    requires ValidPacket(pkt) && (forall b <- blocks :: BlockFits(b)) && (forall i <- chosen :: i < 8)
  {
    if blocks == [] then []
    else if |blocks| - 1 in chosen then
      assert BlockFits(blocks[0]);
      [Older(pkt, blocks[0], |blocks|)] + Pick(pkt, blocks[1..], chosen)
    else Pick(pkt, blocks[1..], chosen)
  }

  function Primary(pkt: Packet, r: Red): Packet {
    Packet(pkt.header.(payloadType := r.pt), r.data)
  }

  function Extract(pkt: Packet, chosen: set<nat>): Result<seq<Packet>, Error>
    requires ValidPacket(pkt) && forall i <- chosen :: i < 8
  {
    var r :- Decode(pkt.payload);
    DecodeIsEncoding(pkt.payload);
    Ok(Pick(pkt, r.blocks, chosen) + [Primary(pkt, r)])
  }

  /** The last sequence number, and the distances k < 8 for which the number k + 1 before it was seen. */
  datatype Recent = Recent(last: nat, seen: set<nat>)

  predicate ValidRecent(w: Recent) {
    w.last < SEQ_RANGE && forall k <- w.seen :: k < 8
  }

  /** Choice `i` is worth recovering for a packet `behind` places behind the last one: it is one of the
      two before that packet, the history covers it and does not hold it. */
  predicate Wanted(w: Recent, behind: nat, i: nat) {
    i < MAX_RECOVER_COUNT && behind + i < 8 && behind + i !in w.seen
  }

  function Missing(w: Recent, behind: nat): set<nat> {
    set i | 0 <= i < MAX_RECOVER_COUNT && Wanted(w, behind, i)
  }

  /** Distance `k` is held once the history has moved `ahead` places. */
  predicate Carried(w: Recent, ahead: nat, k: nat) {
    k < 8 && (k + 1 == ahead || (k >= ahead && k - ahead in w.seen))
  }

  function Advanced(w: Recent, seqNum: nat, ahead: nat): Recent {
    Recent(seqNum, set k | 0 <= k < 8 && Carried(w, ahead, k))
  }

  /** The history after the packet `seqNum`, and which blocks of it are to be recovered. */
  function Observe(w: Option<Recent>, seqNum: nat): (Recent, set<nat>)
    requires seqNum < SEQ_RANGE && (w.Some? ==> ValidRecent(w.value))
  {
    if w.None? then (Recent(seqNum, {}), {})
    else
      var w := w.value;
      var ahead := Sub(SEQ_RANGE, seqNum, w.last);
      if ahead == 0 then (w, {})
      else if ahead > 0x8000 then
        var behind := SEQ_RANGE - ahead;
        if behind > 8 then (w, {})
        else
          var w' := w.(seen := w.seen + {behind - 1});
          (w', Missing(w', behind))
      else
        var w' := if ahead > 8 then Recent(seqNum, {}) else Advanced(w, seqNum, ahead);
        (w', Missing(w', 0))
  }

  lemma ObserveValid(w: Option<Recent>, seqNum: nat)
    requires seqNum < SEQ_RANGE && (w.Some? ==> ValidRecent(w.value))
    ensures ValidRecent(Observe(w, seqNum).0)
    ensures forall i <- Observe(w, seqNum).1 :: i < MAX_RECOVER_COUNT
  {
  }

  /** The unbounded numbers received so far. */
  datatype History = History(last: int, got: set<int>)

  /** The number `k + 1` before `last` is among the received ones. */
  ghost predicate Held(got: set<int>, last: int, k: int) {
    last - 1 - k in got
  }

  ghost predicate Tracks(w: Recent, h: History) {
    && ValidRecent(w)
    && w.last == Wire(SEQ_RANGE, h.last)
    && h.last in h.got
    && (forall n <- h.got :: n <= h.last)
    && (forall k: nat | k < 8 :: k in w.seen <==> Held(h.got, h.last, k))
  }

  function Received(h: History, n: int): History {
    History(if n > h.last then n else h.last, h.got + {n})
  }

  /** The history byte is exact, through shifts, late arrivals and long jumps; and a block is recovered
      exactly when it is one of the two before a new packet, within reach of the history, and its own
      packet has not been received. */
  lemma ObserveTracks(w: Recent, h: History, n: int)
    requires Tracks(w, h) && -0x8000 < n - h.last <= 0x8000
    ensures var (w', chosen) := Observe(Some(w), Wire(SEQ_RANGE, n));
            && Tracks(w', Received(h, n))
            && forall i: nat :: i in chosen <==>
              && n != h.last && i < MAX_RECOVER_COUNT
              && Received(h, n).last - n + i < 8 && !Held(Received(h, n).got, n, i)
  {
    hide Wire;
    WireSub(SEQ_RANGE, n, h.last);
    WireSub(SEQ_RANGE, h.last, n);
    var (w', chosen) := Observe(Some(w), Wire(SEQ_RANGE, n));
    var h' := Received(h, n);
    if n <= h.last {
      LateSeen(w, h, n);
    } else {
      NewSeen(w, h, n);
    }
    assert Held(h'.got, n, 0) == Held(h'.got, h'.last, h'.last - n);
    assert Held(h'.got, n, 1) == Held(h'.got, h'.last, h'.last - n + 1);
  }

  lemma LateSeen(w: Recent, h: History, n: int)
    requires Tracks(w, h) && n <= h.last
    ensures forall k: nat | k < 8 :: Held(h.got + {n}, h.last, k) <==> k in w.seen || k + 1 == h.last - n
  {
  }

  lemma NewSeen(w: Recent, h: History, n: int)
    requires Tracks(w, h) && n > h.last
    ensures forall k: nat | k < 8 :: Held(h.got + {n}, n, k) <==> n - h.last <= 8 && Carried(w, n - h.last, k)
  {
    forall k: nat | k < 8
      ensures Held(h.got + {n}, n, k) <==> n - h.last <= 8 && Carried(w, n - h.last, k)
    {
      if n - h.last <= k {
        assert Held(h.got, h.last, k - (n - h.last)) <==> k - (n - h.last) in w.seen;
      }
    }
  }

  /** The history and the received numbers after a run of packets. */
  ghost function HistoryRun(ns: seq<int>): (r: (Option<Recent>, History))
    ensures r.0.Some? ==> ValidRecent(r.0.value)
  {
    if ns == [] then (None, History(0, {}))
    else
      var (w, h) := HistoryRun(ns[..|ns| - 1]);
      var n := ns[|ns| - 1];
      ObserveValid(w, Wire(SEQ_RANGE, n));
      (Some(Observe(w, Wire(SEQ_RANGE, n)).0), if w.None? then History(n, {n}) else Received(h, n))
  }

  /** Each number is less than half the range from the highest one before it. */
  ghost predicate NearRun(ns: seq<int>) {
    forall t | 0 < t < |ns| :: -0x8000 < ns[t] - HistoryRun(ns[..t]).1.last <= 0x8000
  }

  /** Over any run, in any order and with any repeats, the history byte says exactly which of the eight
      numbers before the highest one were received. */
  lemma {:induction false} HistoryExact(ns: seq<int>)
    requires ns != [] && NearRun(ns)
    ensures var (w, h) := HistoryRun(ns);
            && w.Some? && Tracks(w.value, h)
            && (forall n <- ns :: n in h.got && n <= h.last) && (forall n <- h.got :: n in ns)
  {
    var before, n := ns[..|ns| - 1], ns[|ns| - 1];
    hide Observe;
    assert ns == before + [n];
    if before == [] {
      assert HistoryRun(before) == (None, History(0, {}));
      FirstTracks(n);
    } else {
      assert forall t | 0 < t < |before| :: before[..t] == ns[..t];
      HistoryExact(before);
      var (w, h) := HistoryRun(before);
      ObserveTracks(w.value, h, n);
    }
  }

  lemma FirstTracks(n: int)
    ensures Tracks(Observe(None, Wire(SEQ_RANGE, n)).0, History(n, {n}))
  {
  }

  /** A packet handed on is an original that came with `carrier`: it has the number, timestamp, payload type
      and payload of the original, and the rest of the header of the packet it came with. */
  predicate Matches(p: Packet, original: Packet, carrier: Packet) {
    && p.header.seqNum == original.header.seqNum && p.header.timestamp == original.header.timestamp
    && p.header.payloadType == original.header.payloadType && p.payload == original.payload
    && p.header.rest == carrier.header.rest
  }

  /** The distances of the chosen ones of `n` redundant blocks, oldest first. */
  function Backs(n: nat, chosen: set<nat>): (r: seq<nat>)
    ensures forall k :: k in r <==> 1 <= k <= n && k - 1 in chosen
    ensures forall s, t | 0 <= s < t < |r| :: r[s] > r[t]
  {
    if n == 0 then []
    else
      var nearer := Backs(n - 1, chosen);
      assert forall t | 0 <= t < |nearer| :: nearer[t] in nearer;
      if n - 1 in chosen then [n] + nearer else nearer
  }

  /** A redundant block as a packet: of the header of the packet it came with, the number, the timestamp and
      the payload type are replaced, and nothing else. */
  lemma OlderHeader(pkt: Packet, b: Block, back: nat)
    requires ValidPacket(pkt) && b.tsOffset < TS_RANGE && back < SEQ_RANGE
    ensures var p := Older(pkt, b, back);
            && p.payload == b.data && p.header.payloadType == b.pt && p.header.rest == pkt.header.rest
            && p.header.seqNum == (if pkt.header.seqNum >= back then pkt.header.seqNum - back
                                   else pkt.header.seqNum + 0x1_0000 - back)
            && p.header.timestamp == (if pkt.header.timestamp >= b.tsOffset then pkt.header.timestamp - b.tsOffset
                                      else pkt.header.timestamp + 0x1_0000_0000 - b.tsOffset)
  {
  }

  /** These packets are the blocks at these distances, one for one. */
  ghost predicate Picks(pkt: Packet, blocks: seq<Block>, backs: seq<nat>, out: seq<Packet>)
    requires ValidPacket(pkt)
  {
    && |out| == |backs|
    && forall t | 0 <= t < |out| ::
         && 1 <= backs[t] <= |blocks| && backs[t] <= 8
         && blocks[|blocks| - backs[t]].tsOffset < TS_RANGE
         && out[t] == Older(pkt, blocks[|blocks| - backs[t]], backs[t])
  }

  lemma PicksMore(pkt: Packet, blocks: seq<Block>, backs: seq<nat>, out: seq<Packet>)
    requires ValidPacket(pkt) && blocks != [] && Picks(pkt, blocks[1..], backs, out)
    ensures Picks(pkt, blocks, backs, out)
    ensures |blocks| <= 8 && blocks[0].tsOffset < TS_RANGE ==>
      Picks(pkt, blocks, [|blocks|] + backs, [Older(pkt, blocks[0], |blocks|)] + out)
  {
    hide Older;
    forall t | 0 <= t < |out|
      ensures blocks[1..][|blocks| - 1 - backs[t]] == blocks[|blocks| - backs[t]]
    {
    }
  }

  /** Exactly the blocks at the chosen distances are picked, each becoming the packet `Older` says. */
  lemma {:induction false} PickExact(pkt: Packet, blocks: seq<Block>, chosen: set<nat>)
    requires ValidPacket(pkt) && (forall b <- blocks :: BlockFits(b)) && (forall i <- chosen :: i < 8)
    ensures Picks(pkt, blocks, Backs(|blocks|, chosen), Pick(pkt, blocks, chosen))
  {
    hide Older, Picks;
    if blocks == [] {
      NothingPicks(pkt);
    } else {
      PickExact(pkt, blocks[1..], chosen);
      assert BlockFits(blocks[0]);
      PicksMore(pkt, blocks, Backs(|blocks| - 1, chosen), Pick(pkt, blocks[1..], chosen));
    }
  }

  lemma NothingPicks(pkt: Packet)
    requires ValidPacket(pkt)
    ensures Picks(pkt, [], [], [])
  {
  }

  /** All packets of a RED packet: the chosen blocks, oldest first, and then the primary, which is the packet
      that arrived but for its payload type and payload. */
  lemma ExtractExact(pkt: Packet, chosen: set<nat>)
    requires ValidPacket(pkt) && forall i <- chosen :: i < 8
    ensures Extract(pkt, chosen).Ok? <==> Decode(pkt.payload).Ok?
    ensures Extract(pkt, chosen).Err? ==> Decode(pkt.payload) == Err(Extract(pkt, chosen).error)
    ensures Extract(pkt, chosen).Ok? ==>
      var out, r, n := Extract(pkt, chosen).value, Decode(pkt.payload).value, |Decode(pkt.payload).value.blocks|;
      var backs := Backs(n, chosen);
      && |out| == |backs| + 1
      && out[|backs|].header.seqNum == pkt.header.seqNum && out[|backs|].header.timestamp == pkt.header.timestamp
      && out[|backs|].header.payloadType == r.pt && out[|backs|].header.rest == pkt.header.rest
      && out[|backs|].payload == r.data
      && Picks(pkt, r.blocks, backs, out[..|backs|])
      && forall p <- out :: p.header.rest == pkt.header.rest
  {
    hide Decode, Pick, Backs;
    if Decode(pkt.payload).Ok? {
      DecodeIsEncoding(pkt.payload);
      var r := Decode(pkt.payload).value;
      PickExact(pkt, r.blocks, chosen);
      var picked := Pick(pkt, r.blocks, chosen);
      assert (picked + [Primary(pkt, r)])[..|picked|] == picked;
    }
  }

  /** A sent stream: packet i has number base + i, fits a redundant block, and is at most 2^14 - 1
      timestamp units younger than the two before it. */
  datatype Stream = Stream(base: int, packets: seq<Packet>, redPt: nat) {
    ghost predicate Valid() {
      && (forall p <- packets :: ValidPacket(p) && p.header.payloadType < 128 && |p.payload| < 1024)
      && (forall i: nat | i < |packets| :: packets[i].header.seqNum == Wire(SEQ_RANGE, base + i))
      && (forall i: nat, j: nat | i < j <= i + 2 && j < |packets| :: TsOffset(i, j) < 0x4000)
    }

    function TsOffset(i: nat, j: nat): nat
      requires i < |packets| && j < |packets|
    {
      if packets[j].header.timestamp < TS_RANGE && packets[i].header.timestamp < TS_RANGE then
        Sub(TS_RANGE, packets[j].header.timestamp, packets[i].header.timestamp)
      else 0
    }

    /** Packet `i` as a redundant block of packet `j`. */
    function BlockOf(i: nat, j: nat): Block
      requires i < |packets| && j < |packets|
    {
      Block(packets[i].header.payloadType, TsOffset(i, j), packets[i].payload)
    }

    /** The RED packet of packet `j`: the two packets before it, as far as there are any, and itself. */
    function RedOf(j: nat): Red
      requires j < |packets|
    {
      var older := if j == 0 then [] else if j == 1 then [BlockOf(0, 1)] else [BlockOf(j - 2, j), BlockOf(j - 1, j)];
      Red(older, packets[j].header.payloadType, packets[j].payload)
    }

    ghost function Sent(j: nat): Packet
      requires j < |packets| && Valid()
    {
      RedFits(this, j);
      Packet(packets[j].header.(payloadType := redPt), Encode(RedOf(j)))
    }
  }

  lemma RedFits(m: Stream, j: nat)
    requires m.Valid() && j < |m.packets|
    ensures Fits(m.RedOf(j))
  {
    assert m.packets[j] in m.packets;
    if j >= 1 {
      assert m.packets[j - 1] in m.packets;
    }
    if j >= 2 {
      assert m.packets[j - 2] in m.packets;
    }
  }

  /** What is handed on for the RED packet of packet `j`: of the two before it those that are chosen, then
      the packet itself. */
  ghost predicate HandsOn(m: Stream, j: nat, chosen: set<nat>, out: seq<Packet>)
    requires j < |m.packets|
  {
    var k1, k0 := j >= 2 && 1 in chosen, j >= 1 && 0 in chosen;
    && |out| == (if k1 then 1 else 0) + (if k0 then 1 else 0) + 1
    && (k1 ==> Matches(out[0], m.packets[j - 2], m.packets[j]))
    && (k0 ==> Matches(out[if k1 then 1 else 0], m.packets[j - 1], m.packets[j]))
    && Matches(out[|out| - 1], m.packets[j], m.packets[j])
  }

  /** A redundant block of packet `j` rebuilds the packet it came from. */
  lemma OlderMatches(m: Stream, i: nat, j: nat)
    requires m.Valid() && i < j <= i + 2 && j < |m.packets|
    ensures ValidPacket(m.Sent(j)) && BlockFits(m.BlockOf(i, j))
    ensures Matches(Older(m.Sent(j), m.BlockOf(i, j), j - i), m.packets[i], m.packets[j])
  {
    hide Wire;
    assert m.packets[j] in m.packets && m.packets[i] in m.packets;
    assert m.TsOffset(i, j) < 0x4000;
    WireSub(SEQ_RANGE, m.base + j, m.base + i);
  }

  lemma ExtractHandsOn(m: Stream, j: nat, chosen: set<nat>)
    requires m.Valid() && j < |m.packets| && forall i <- chosen :: i < MAX_RECOVER_COUNT
    ensures ValidPacket(m.Sent(j)) && Extract(m.Sent(j), chosen).Ok?
    ensures HandsOn(m, j, chosen, Extract(m.Sent(j), chosen).value)
  {
    assert m.packets[j] in m.packets;
    RedFits(m, j);
    RoundTrip(m.RedOf(j));
    if j >= 1 {
      OlderMatches(m, j - 1, j);
    }
    if j >= 2 {
      OlderMatches(m, j - 2, j);
    }
    PickTwo(m.Sent(j), m.RedOf(j).blocks, chosen);
  }

  lemma PickTwo(pkt: Packet, blocks: seq<Block>, chosen: set<nat>)
    requires ValidPacket(pkt) && |blocks| <= 2 && (forall b <- blocks :: BlockFits(b)) && (forall i <- chosen :: i < 8)
    ensures |blocks| == 0 ==> Pick(pkt, blocks, chosen) == []
    ensures forall b <- blocks :: b.tsOffset < TS_RANGE
    ensures |blocks| == 1 ==>
      blocks[0] in blocks && Pick(pkt, blocks, chosen) == if 0 in chosen then [Older(pkt, blocks[0], 1)] else []
    ensures |blocks| == 2 ==>
      blocks[0] in blocks && blocks[1] in blocks && Pick(pkt, blocks, chosen) ==
        (if 1 in chosen then [Older(pkt, blocks[0], 2)] else [])
        + (if 0 in chosen then [Older(pkt, blocks[1], 1)] else [])
  {
    if |blocks| == 2 {
      assert BlockFits(blocks[0]) && BlockFits(blocks[1]);
      assert blocks[1..] == [blocks[1]];
      PickTwo(pkt, blocks[1..], chosen);
    } else if |blocks| == 1 {
      assert BlockFits(blocks[0]);
    }
  }

  /** The highest of the packets that arrived, by index. */
  function Highest(idx: seq<nat>): (h: nat)
    ensures forall j <- idx :: j <= h
    ensures idx != [] ==> h in idx
  {
    if idx == [] then 0
    else
      var h, j := Highest(idx[..|idx| - 1]), idx[|idx| - 1];
      assert idx == idx[..|idx| - 1] + [j];
      if h > j then h else j
  }

  /** The packets of a stream that arrive, by index: in any order, lost or repeated, but each less than half
      the range of numbers from the highest one before it. */
  ghost predicate Arriving(m: Stream, idx: seq<nat>) {
    && (forall t | 0 <= t < |idx| :: idx[t] < |m.packets|)
    && (forall t | 0 < t < |idx| :: -0x8000 < idx[t] - Highest(idx[..t]) <= 0x8000)
  }

  /** The history and what is handed on, when the RED packet of packet `j` arrives. */
  ghost function Feed(m: Stream, w: Option<Recent>, j: nat): (r: (Recent, seq<Packet>))
    requires m.Valid() && j < |m.packets| && (w.Some? ==> ValidRecent(w.value))
    ensures ValidRecent(r.0)
  {
    assert m.packets[j] in m.packets;
    var (w', chosen) := Observe(w, m.Sent(j).header.seqNum);
    ObserveValid(w, m.Sent(j).header.seqNum);
    match Extract(m.Sent(j), chosen)
    case Err(_) => (w', [])
    case Ok(more) => (w', more)
  }

  /** The history and everything handed on, after the packets `idx` arrived. */
  ghost function Play(m: Stream, idx: seq<nat>): (r: (Option<Recent>, seq<Packet>))
    requires m.Valid() && Arriving(m, idx)
    ensures r.0.Some? ==> ValidRecent(r.0.value)
  {
    if idx == [] then (None, [])
    else
      ArrivingBefore(m, idx);
      var (w, out) := Play(m, idx[..|idx| - 1]);
      var (w', more) := Feed(m, w, idx[|idx| - 1]);
      (Some(w'), out + more)
  }

  lemma ArrivingBefore(m: Stream, idx: seq<nat>)
    requires Arriving(m, idx) && idx != []
    ensures Arriving(m, idx[..|idx| - 1])
  {
    hide Highest;
    var before := idx[..|idx| - 1];
    forall t | 0 < t < |before|
      ensures -0x8000 < before[t] - Highest(before[..t]) <= 0x8000
    {
      assert before[..t] == idx[..t] && before[t] == idx[t];
    }
  }

  /** The packets handed on when packet `j` arrives after the packets `before`: those of the two before it
      that have not arrived, if the history reaches that far, and the packet itself. */
  function HandedFor(before: seq<nat>, j: nat): seq<nat> {
    var top := Highest(before);
    var behind := if j < top then top - j else 0;
    if before == [] || j == top then [j]
    else
      (if j >= 2 && behind + 1 < 8 && j - 2 !in before then [j - 2] else [])
      + (if j >= 1 && behind < 8 && j - 1 !in before then [j - 1] else [])
      + [j]
  }

  /** The packets handed on over a run of arrivals, repeats included. */
  function Handed(idx: seq<nat>): seq<nat> {
    if idx == [] then [] else Handed(idx[..|idx| - 1]) + HandedFor(idx[..|idx| - 1], idx[|idx| - 1])
  }

  /** The packet that each of them comes with. */
  function Carriers(idx: seq<nat>): (r: seq<nat>)
    ensures |r| == |Handed(idx)|
    ensures forall j <- r :: j in idx
  {
    if idx == [] then []
    else
      var before, j := idx[..|idx| - 1], idx[|idx| - 1];
      assert idx == before + [j];
      Carriers(before) + Same(j, |HandedFor(before, j)|)
  }

  function Same(j: nat, n: nat): (r: seq<nat>)
    ensures |r| == n && forall t | 0 <= t < n :: r[t] == j
  {
    seq(n, _ => j)
  }

  /** `out` is these packets of the stream, one for one, each having come with its carrier. */
  ghost predicate Shows(m: Stream, out: seq<Packet>, handed: seq<nat>, carriers: seq<nat>) {
    && |out| == |handed| == |carriers|
    && forall t | 0 <= t < |out| ::
         && handed[t] < |m.packets| && carriers[t] < |m.packets|
         && handed[t] <= carriers[t] <= handed[t] + 2
         && Matches(out[t], m.packets[handed[t]], m.packets[carriers[t]])
  }

  /** The numbers of the packets that arrived. */
  ghost function Arrived(m: Stream, idx: seq<nat>): set<int> {
    set j | j in idx :: m.base + j
  }

  lemma FeedNext(m: Stream, w: Recent, before: seq<nat>, j: nat)
    requires m.Valid() && j < |m.packets| && before != [] && -0x8000 < j - Highest(before) <= 0x8000
    requires Tracks(w, History(m.base + Highest(before), Arrived(m, before)))
    ensures var (w', more) := Feed(m, Some(w), j);
            && Tracks(w', Received(History(m.base + Highest(before), Arrived(m, before)), m.base + j))
            && Shows(m, more, HandedFor(before, j), Same(j, |HandedFor(before, j)|))
  {
    hide Tracks, Observe, Extract, HandsOn, Shows, HandedFor, Received, Highest, Arrived;
    assert m.packets[j] in m.packets;
    ChosenByIndex(m, w, before, j);
    var chosen := Observe(Some(w), m.Sent(j).header.seqNum).1;
    ExtractHandsOn(m, j, chosen);
    HandsOnShows(m, before, j, chosen, Feed(m, Some(w), j).1);
  }

  /** What is chosen for packet `j`, and what the history then is. */
  lemma ChosenByIndex(m: Stream, w: Recent, before: seq<nat>, j: nat)
    requires m.Valid() && j < |m.packets| && before != [] && -0x8000 < j - Highest(before) <= 0x8000
    requires Tracks(w, History(m.base + Highest(before), Arrived(m, before)))
    ensures ValidRecent(w) && m.Sent(j).header.seqNum < SEQ_RANGE
    ensures var (w', chosen) := Observe(Some(w), m.Sent(j).header.seqNum);
            && Tracks(w', Received(History(m.base + Highest(before), Arrived(m, before)), m.base + j))
            && (forall i <- chosen :: i < MAX_RECOVER_COUNT)
            && Chooses(before, j, chosen)
  {
    hide Tracks, Observe, Arrived, Highest, Held;
    assert m.packets[j] in m.packets;
    var h := History(m.base + Highest(before), Arrived(m, before));
    TracksValid(w, h);
    ObserveTracks(w, h, m.base + j);
    ObserveValid(Some(w), m.Sent(j).header.seqNum);
    HeldByIndex(m, before, j, 0);
    HeldByIndex(m, before, j, 1);
  }

  /** Of the two packets before `j` those are chosen that have not arrived, as far as the history reaches. */
  ghost predicate Chooses(before: seq<nat>, j: nat, chosen: set<nat>) {
    var behind := if j < Highest(before) then Highest(before) - j else 0;
    forall i: nat | i < MAX_RECOVER_COUNT ::
      i in chosen <==> j != Highest(before) && behind + i < 8 && !(j >= i + 1 && j - 1 - i in before)
  }

  lemma TracksValid(w: Recent, h: History)
    requires Tracks(w, h)
    ensures ValidRecent(w)
  {
  }

  /** The history holds the number before `j` exactly if that packet arrived. */
  lemma HeldByIndex(m: Stream, before: seq<nat>, j: nat, i: nat)
    ensures Held(Received(History(m.base + Highest(before), Arrived(m, before)), m.base + j).got, m.base + j, i)
      <==> j >= i + 1 && j - 1 - i in before
  {
    if m.base + j - 1 - i in Arrived(m, before) {
      var k :| k in before && m.base + k == m.base + j - 1 - i;
    }
  }

  lemma HandsOnShows(m: Stream, before: seq<nat>, j: nat, chosen: set<nat>, more: seq<Packet>)
    requires j < |m.packets| && before != [] && HandsOn(m, j, chosen, more)
    requires Chooses(before, j, chosen)
    ensures Shows(m, more, HandedFor(before, j), Same(j, |HandedFor(before, j)|))
  {
    hide Matches, Highest;
  }

  lemma FeedFirst(m: Stream, j: nat)
    requires m.Valid() && j < |m.packets|
    ensures var (w, out) := Feed(m, None, j);
            Tracks(w, History(m.base + j, {m.base + j})) && Shows(m, out, [j], [j])
  {
    hide Matches;
    ExtractHandsOn(m, j, {});
  }

  lemma ArrivedNext(m: Stream, before: seq<nat>, j: nat)
    ensures Arrived(m, before + [j]) == Arrived(m, before) + {m.base + j}
    ensures Highest(before + [j]) == if before == [] || Highest(before) < j then j else Highest(before)
  {
    var idx := before + [j];
    assert idx[..|before|] == before;
    forall n
      ensures n in Arrived(m, idx) <==> n in Arrived(m, before) + {m.base + j}
    {
      if n in Arrived(m, before) {
        var k :| k in before && m.base + k == n;
        assert k in idx;
      }
      assert j in idx;
    }
  }

  lemma ShowsMore(m: Stream, a: seq<Packet>, b: seq<Packet>, x: seq<nat>, y: seq<nat>, u: seq<nat>, v: seq<nat>)
    requires Shows(m, a, x, u) && Shows(m, b, y, v)
    ensures Shows(m, a + b, x + y, u + v)
  {
    hide Matches;
  }

  lemma PlayNext(m: Stream, before: seq<nat>, j: nat)
    requires m.Valid() && Arriving(m, before + [j])
    ensures Arriving(m, before) && j < |m.packets|
    ensures before != [] ==> -0x8000 < j - Highest(before) <= 0x8000
    ensures var (w, out) := Play(m, before);
            Play(m, before + [j]) == (Some(Feed(m, w, j).0), out + Feed(m, w, j).1)
  {
    hide Feed, Highest;
    ArrivingBefore(m, before + [j]);
    assert (before + [j])[..|before|] == before && (before + [j])[|before|] == j;
  }

  lemma NothingPlayed(m: Stream)
    requires m.Valid()
    ensures Arriving(m, []) && Play(m, []) == (None, []) && Arrived(m, []) == {}
    ensures Handed([]) == [] && Carriers([]) == []
  {
  }

  /** End to end, for arrivals in any order: the history stays exact, and what is handed on is packet for
      packet the stated ones, with their numbers, timestamps, payload types and payloads. */
  lemma {:induction false} PlayExact(m: Stream, idx: seq<nat>)
    requires m.Valid() && Arriving(m, idx)
    ensures var (w, out) := Play(m, idx);
            && (idx != [] ==> w.Some? && Tracks(w.value, History(m.base + Highest(idx), Arrived(m, idx))))
            && Shows(m, out, Handed(idx), Carriers(idx))
  {
    hide Arriving, Play, Feed, Tracks, Shows, Arrived, Highest, Handed, HandedFor, Carriers;
    NothingPlayed(m);
    NothingShown(m);
    if idx != [] {
      var before, j := idx[..|idx| - 1], idx[|idx| - 1];
      assert idx == before + [j];
      PlayNext(m, before, j);
      PlayExact(m, before);
      ArrivedNext(m, before, j);
      HandedNext(before, j);
      var (w, out) := Play(m, before);
      if before == [] {
        FeedFirst(m, j);
        HandedOnce(j);
        ShowsMore(m, out, Feed(m, None, j).1, [], [j], [], [j]);
        assert Same(j, 1) == [j];
        assert {} + {m.base + j} == {m.base + j};
      } else {
        FeedNext(m, w.value, before, j);
        ReceivedNext(m, before, j);
        ShowsMore(m, out, Feed(m, w, j).1, Handed(before), HandedFor(before, j),
                  Carriers(before), Same(j, |HandedFor(before, j)|));
      }
    }
  }

  lemma NothingShown(m: Stream)
    ensures Shows(m, [], [], [])
  {
  }

  lemma ReceivedNext(m: Stream, before: seq<nat>, j: nat)
    requires before != []
    ensures Received(History(m.base + Highest(before), Arrived(m, before)), m.base + j)
         == History(m.base + Highest(before + [j]), Arrived(m, before + [j]))
  {
    hide Highest, Arrived;
    ArrivedNext(m, before, j);
  }

  /** Each packet arrives after those of lower index. */
  ghost predicate InOrder(idx: seq<nat>) {
    forall s, t | 0 <= s < t < |idx| :: idx[s] < idx[t]
  }

  lemma InOrderNext(before: seq<nat>, j: nat)
    requires InOrder(before + [j]) && before != []
    ensures InOrder(before) && Highest(before) == before[|before| - 1] < j && before[0] == (before + [j])[0]
  {
    var idx := before + [j];
    assert forall s | 0 <= s < |before| :: idx[s] == before[s] && idx[|before|] == j;
    assert before[|before| - 1] in before;
    var s :| 0 <= s < |before| && before[s] == Highest(before);
  }

  lemma HandedNext(before: seq<nat>, j: nat)
    ensures Handed(before + [j]) == Handed(before) + HandedFor(before, j)
    ensures Carriers(before + [j]) == Carriers(before) + Same(j, |HandedFor(before, j)|)
  {
    assert (before + [j])[..|before|] == before;
  }

  /** What the packet `j` hands on when the packets before it arrived in order. */
  lemma HandedInOrder(before: seq<nat>, j: nat)
    requires before != [] && Highest(before) < j
    ensures forall x: nat :: x in HandedFor(before, j) <==> x == j || (x < j <= x + 2 && x !in before)
    ensures var r := HandedFor(before, j); forall s, t | 0 <= s < t < |r| :: r[s] < r[t]
  {
    hide Highest;
  }

  /** When packets arrive in order, one from the first arrival on is handed on if and only if it or one of the
      next two arrives, however many are lost. */
  lemma {:induction false} HandedIff(idx: seq<nat>, q: nat)
    requires InOrder(idx) && idx != [] && idx[0] <= q
    ensures q in Handed(idx) <==> q in idx || q + 1 in idx || q + 2 in idx
  {
    hide Highest, Handed, HandedFor, InOrder;
    var before, j := idx[..|idx| - 1], idx[|idx| - 1];
    assert idx == before + [j];
    HandedNext(before, j);
    if before == [] {
      HandedOnce(j);
      assert idx == [j];
    } else {
      InOrderNext(before, j);
      HandedIff(before, q);
      HandedInOrder(before, j);
      InEither(before, [j]);
      InEither(Handed(before), HandedFor(before, j));
    }
  }

  lemma InEither(a: seq<nat>, b: seq<nat>)
    ensures forall x :: x in a + b <==> x in a || x in b
  {
  }

  lemma HandedOnce(j: nat)
    ensures Handed([]) == [] && HandedFor([], j) == [j] && Carriers([]) == []
  {
  }

  lemma {:induction false} HandedBound(idx: seq<nat>)
    requires InOrder(idx) && idx != []
    ensures forall q <- Handed(idx) :: q <= idx[|idx| - 1]
  {
    hide Highest, Handed, HandedFor, InOrder;
    var before, j := idx[..|idx| - 1], idx[|idx| - 1];
    assert idx == before + [j];
    HandedNext(before, j);
    if before == [] {
      HandedOnce(j);
    } else {
      InOrderNext(before, j);
      HandedBound(before);
      HandedInOrder(before, j);
    }
  }

  /** And such packets come out in order: one that comes out for the first time is higher than all that came
      out before. */
  lemma {:induction false} FirstTimesInOrder(idx: seq<nat>, t: nat)
    requires InOrder(idx) && idx != [] && t < |Handed(idx)|
    requires idx[0] <= Handed(idx)[t] && Handed(idx)[t] !in Handed(idx)[..t]
    ensures forall s | 0 <= s < t :: Handed(idx)[s] < Handed(idx)[t]
  {
    hide Highest, Handed, HandedFor, InOrder;
    var before, j := idx[..|idx| - 1], idx[|idx| - 1];
    assert idx == before + [j];
    HandedNext(before, j);
    var x, old', new' := Handed(idx)[t], Handed(before), HandedFor(before, j);
    if before == [] {
      HandedOnce(j);
    } else {
      InOrderNext(before, j);
      if t < |old'| {
        assert Handed(idx)[..t] == old'[..t];
        FirstTimesInOrder(before, t);
      } else {
        assert Handed(idx)[..t] == old' + new'[..t - |old'|];
        InEither(old', new'[..t - |old'|]);
        assert x == new'[t - |old'|] && x in new' && x !in old';
        HandedBound(before);
        HandedIff(before, x);
        HandedInOrder(before, j);
        NewIsHigher(before, j, x);
        forall s | 0 <= s < t
          ensures Handed(idx)[s] < x
        {
          assert Handed(idx)[s] == if s < |old'| then old'[s] else new'[s - |old'|];
          assert s < |old'| ==> old'[s] in old';
        }
      }
    }
  }

  lemma NewIsHigher(before: seq<nat>, j: nat, x: nat)
    requires before != [] && before[|before| - 1] < j && (x == j || x < j <= x + 2)
    requires x !in before && x + 1 !in before && x + 2 !in before
    ensures x > before[|before| - 1]
  {
    assert before[|before| - 1] in before;
  }

  /** The packet `q` is among `out`, with the rest of the header of a packet at most two after it. */
  ghost predicate Emitted(m: Stream, out: seq<Packet>, q: nat)
    requires q < |m.packets|
  {
    exists p, j: nat :: p in out && q <= j <= q + 2 && j < |m.packets| && Matches(p, m.packets[q], m.packets[j])
  }

  ghost predicate Original(m: Stream, p: Packet) {
    exists q: nat, j: nat :: q <= j <= q + 2 && j < |m.packets| && Matches(p, m.packets[q], m.packets[j])
  }

  /** At most two packets are lost in a row. */
  ghost predicate SmallGaps(idx: seq<nat>) {
    forall t | 0 <= t < |idx| - 1 :: idx[t] < idx[t + 1] <= idx[t] + 3
  }

  lemma {:induction false} GapsCovered(idx: seq<nat>, q: nat)
    requires SmallGaps(idx) && idx != [] && idx[0] <= q <= idx[|idx| - 1]
    ensures q in idx || q + 1 in idx || q + 2 in idx
  {
    var last := |idx| - 1;
    assert idx[last] in idx;
    if last > 0 && q <= idx[last - 1] {
      GapsCovered(idx[..last], q);
    } else if last > 0 {
      assert idx[last - 1] < idx[last - 1 + 1] <= idx[last - 1] + 3;
    }
  }

  lemma {:induction false} GapsInOrder(idx: seq<nat>)
    requires SmallGaps(idx)
    ensures InOrder(idx)
  {
    if idx != [] {
      var last := |idx| - 1;
      GapsInOrder(idx[..last]);
      if last > 0 {
        assert idx[last - 1] < idx[last - 1 + 1];
        assert idx[..last][last - 1] == idx[last - 1];
        assert forall s | 0 <= s < last :: idx[s] == idx[..last][s] <= idx[last - 1];
      }
    }
  }

  /** With at most two losses in a row, everything from the first packet that arrived to the last one is
      handed on, and nothing is handed on that was not sent. */
  lemma PlayCovers(m: Stream, idx: seq<nat>)
    requires m.Valid() && Arriving(m, idx) && SmallGaps(idx) && idx != []
    ensures idx[|idx| - 1] < |m.packets|
    ensures forall q: nat | idx[0] <= q <= idx[|idx| - 1] :: Emitted(m, Play(m, idx).1, q)
    ensures forall o <- Play(m, idx).1 :: Original(m, o)
  {
    assert idx[|idx| - 1] < |m.packets|;
    hide Play, Handed, Carriers, Matches, Arriving, SmallGaps, InOrder, Original, Emitted, Shows;
    var out, handed, carriers := Play(m, idx).1, Handed(idx), Carriers(idx);
    PlayExact(m, idx);
    GapsInOrder(idx);
    forall q: nat | idx[0] <= q <= idx[|idx| - 1]
      ensures Emitted(m, out, q)
    {
      GapsCovered(idx, q);
      HandedIff(idx, q);
      ShownIsEmitted(m, out, handed, carriers, q);
    }
    ShownAreOriginal(m, out, handed, carriers);
  }

  lemma ShownIsEmitted(m: Stream, out: seq<Packet>, handed: seq<nat>, carriers: seq<nat>, q: nat)
    requires Shows(m, out, handed, carriers) && q in handed && q < |m.packets|
    ensures Emitted(m, out, q)
  {
    hide Matches;
    var t :| 0 <= t < |handed| && handed[t] == q;
    assert out[t] in out && Matches(out[t], m.packets[q], m.packets[carriers[t]]);
  }

  lemma ShownAreOriginal(m: Stream, out: seq<Packet>, handed: seq<nat>, carriers: seq<nat>)
    requires Shows(m, out, handed, carriers)
    ensures forall o <- out :: Original(m, o)
  {
    hide Matches;
    forall o | o in out
      ensures Original(m, o)
    {
      var t :| 0 <= t < |out| && out[t] == o;
      assert handed[t] < |m.packets| && Matches(o, m.packets[handed[t]], m.packets[carriers[t]]);
    }
  }
}
