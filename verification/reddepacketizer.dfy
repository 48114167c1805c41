/** The RED depacketizer of pkg/red/red.go: the parsing loops and the history byte. */
module RedDepacketizer {
  import opened BitMask
  import opened Wrappers
  import opened Modular
  import opened RedFormat
  import opened RedRecovery

  /** The positions of the bits that are set. */
  ghost function Bits(h: bv8): (s: set<nat>)
    ensures forall k: nat :: k in s <==> InByte(h, k)
    ensures forall k <- s :: k < 8
  {
    set k | 0 <= k < 8 && InByte(h, k)
  }

  lemma OneBitAt(h: bv8, k: nat, j: nat)
    requires k < 8 && j < 8
    ensures InByte(h | OneByte(k), j) <==> j == k || InByte(h, j)
  {
  }

  lemma ShiftedBitAt(h: bv8, d: nat, j: nat)
    requires 1 <= d <= 8 && j < 8
    ensures InByte((h << d) | OneByte(d - 1), j) <==> if j < d then j == d - 1 else InByte(h, j - d)
  {
  }

  lemma OneBit(h: bv8, k: nat)
    requires k < 8
    ensures Bits(h | OneByte(k)) == Bits(h) + {k}
  {
    hide OneByte, InByte;
    forall j: nat | j < 8
      ensures j in Bits(h | OneByte(k)) <==> j in Bits(h) + {k}
    {
      OneBitAt(h, k, j);
    }
  }

  lemma ShiftedBits(w: Recent, h: bv8, seqNum: nat, d: nat)
    requires 1 <= d <= 8 && w.seen == Bits(h)
    ensures Advanced(w, seqNum, d) == Recent(seqNum, Bits((h << d) | OneByte(d - 1)))
  {
    hide OneByte, InByte;
    forall j: nat | j < 8
      ensures j in Bits((h << d) | OneByte(d - 1)) <==> j in Advanced(w, seqNum, d).seen
    {
      ShiftedBitAt(h, d, j);
    }
  }

  lemma {:induction false} TotalLengthAppend(a: seq<Head>, b: seq<Head>)
    ensures TotalLength(a + b) == TotalLength(a) + TotalLength(b)
  {
    if a == [] {
      assert a + b == b;
    } else {
      TotalLengthAppend(a[1..], b);
      assert (a + b)[1..] == a[1..] + b;
    }
  }

  /** The headers of `payload` are `heads` and then those of `rest`. */
  ghost predicate ReadSoFar(payload: seq<byte>, heads: seq<Head>, rest: seq<byte>) {
    match DecodeHeads(rest)
    case Err(e) => DecodeHeads(payload) == Err(e)
    case Ok((more, pt, body)) => DecodeHeads(payload) == Ok((heads + more, pt, body))
  }

  lemma ReadOneMore(payload: seq<byte>, heads: seq<Head>, rest: seq<byte>)
    requires ReadSoFar(payload, heads, rest) && |rest| >= 4 && rest[0] >= 128
    ensures ReadSoFar(payload, heads + [DecodeHead(rest)], rest[4..])
    ensures TotalLength(heads + [DecodeHead(rest)]) == TotalLength(heads) + DecodeHead(rest).length
  {
    TotalLengthAppend(heads, [DecodeHead(rest)]);
    if DecodeHeads(rest[4..]).Ok? {
      var more := DecodeHeads(rest[4..]).value.0;
      assert heads + ([DecodeHead(rest)] + more) == heads + [DecodeHead(rest)] + more;
    }
  }

  /** The headers at the front of the payload, the payload type of the primary, the length of all
      redundant data, and what follows. */
  method ReadHeads(whole: seq<byte>) returns (r: Result<(seq<Head>, nat, nat, seq<byte>), Error>)
    ensures match DecodeHeads(whole)
            case Err(e) => r == Err(e)
            case Ok((heads, pt, body)) => r == Ok((heads, pt, TotalLength(heads), body))
  {
    assert forall hs: seq<Head> :: [] + hs == hs;
    var payload := whole;
    var blocks: seq<Head> := [];
    var blockLength := 0;
    while true
      invariant ReadSoFar(whole, blocks, payload)
      invariant blockLength == TotalLength(blocks)
      decreases |payload|
    {
      if |payload| < 1 {
        return Err(IncompleteHeader);
      }
      if payload[0] < 128 {
        assert blocks + [] == blocks;
        return Ok((blocks, payload[0], blockLength, payload[1..]));
      }
      if |payload| < 4 {
        return Err(IncompleteHeader);
      }
      ReadOneMore(whole, blocks, payload);
      var head := DecodeHead(payload);
      blocks := blocks + [head];
      blockLength := blockLength + head.length;
      payload := payload[4..];
    }
  }

  /** The blocks from `i` on are still to be taken from `payload`, and `pkts` are the chosen ones before. */
  ghost predicate Picked(pkt: Packet, blocks: seq<Head>, body: seq<byte>, chosen: set<nat>,
                         i: nat, payload: seq<byte>, pkts: seq<Packet>) {
    && ValidPacket(pkt) && (forall k <- chosen :: k < 8)
    && TotalLength(blocks) <= |body| && (forall b <- Slices(blocks, body) :: BlockFits(b))
    && i <= |blocks| && TotalLength(blocks[i..]) <= |payload|
    && (forall b <- Slices(blocks[i..], payload) :: BlockFits(b))
    && payload[TotalLength(blocks[i..])..] == body[TotalLength(blocks)..]
    && pkts + Pick(pkt, Slices(blocks[i..], payload), chosen) == Pick(pkt, Slices(blocks, body), chosen)
  }

  lemma PickedNone(pkt: Packet, blocks: seq<Head>, body: seq<byte>, chosen: set<nat>)
    requires ValidPacket(pkt) && TotalLength(blocks) <= |body| && forall k <- chosen :: k < 8
    requires forall b <- Slices(blocks, body) :: BlockFits(b)
    ensures Picked(pkt, blocks, body, chosen, 0, body, [])
  {
    hide Pick, Slices, TotalLength, BlockFits;
    assert blocks[0..] == blocks;
    assert [] + Pick(pkt, Slices(blocks, body), chosen) == Pick(pkt, Slices(blocks, body), chosen);
  }

  lemma PickedNext(pkt: Packet, blocks: seq<Head>, body: seq<byte>, chosen: set<nat>,
                   i: nat, payload: seq<byte>, pkts: seq<Packet>)
    requires Picked(pkt, blocks, body, chosen, i, payload, pkts) && i < |blocks|
    ensures var b := blocks[i];
            && b.length <= |payload|
            && (|blocks| - i - 1 !in chosen ==>
                  Picked(pkt, blocks, body, chosen, i + 1, payload[b.length..], pkts))
            && (|blocks| - i - 1 in chosen ==>
                  && b.tsOffset < TS_RANGE && |blocks| - i < SEQ_RANGE
                  && var older := Older(pkt, Block(b.pt, b.tsOffset, payload[..b.length]), |blocks| - i);
                  Picked(pkt, blocks, body, chosen, i + 1, payload[b.length..], pkts + [older]))
  {
    hide Pick, Older, Slices, TotalLength, BlockFits;
    SlicesStep(blocks, i, payload);
    PickStep(pkt, pkts, Slices(blocks[i..], payload), chosen);
  }

  lemma PickedAll(pkt: Packet, blocks: seq<Head>, body: seq<byte>, chosen: set<nat>,
                  payload: seq<byte>, pkts: seq<Packet>)
    requires Picked(pkt, blocks, body, chosen, |blocks|, payload, pkts)
    ensures pkts == Pick(pkt, Slices(blocks, body), chosen) && payload == body[TotalLength(blocks)..]
  {
    assert blocks[|blocks|..] == [] && pkts + [] == pkts && payload[0..] == payload;
  }

  /** The blocks that `recoverBits` flags, as packets, and what is left of the payload after all blocks. */
  method PickBlocks(pkt: Packet, blocks: seq<Head>, body: seq<byte>, recoverBits: bv8)
    returns (pkts: seq<Packet>, payload: seq<byte>)
    requires ValidPacket(pkt) && TotalLength(blocks) <= |body|
    requires forall b <- Slices(blocks, body) :: BlockFits(b)
    ensures pkts == Pick(pkt, Slices(blocks, body), Bits(recoverBits))
    ensures payload == body[TotalLength(blocks)..]
  {
    hide OneByte, InByte, BlockFits, Picked, Older;
    payload := body;
    pkts := [];
    PickedNone(pkt, blocks, body, Bits(recoverBits));
    for i := 0 to |blocks|
      invariant Picked(pkt, blocks, body, Bits(recoverBits), i, payload, pkts)
    {
      var b := blocks[i];
      PickedNext(pkt, blocks, body, Bits(recoverBits), i, payload, pkts);
      var recoverIndex := |blocks| - i;
      ByteTest(recoverBits, recoverIndex - 1);
      if recoverBits & OneByte(recoverIndex - 1) != 0 {
        pkts := pkts + [Older(pkt, Block(b.pt, b.tsOffset, payload[..b.length]), recoverIndex)];
      }
      payload := payload[b.length..];
    }
    PickedAll(pkt, blocks, body, Bits(recoverBits), payload, pkts);
  }

  lemma SlicesStep(all: seq<Head>, i: nat, body: seq<byte>)
    requires i < |all| && TotalLength(all[i..]) <= |body|
    ensures var h, blocks := all[i], Slices(all[i..], body);
            && h.length <= |body| && blocks[0] == Block(h.pt, h.tsOffset, body[..h.length])
            && TotalLength(all[i + 1..]) <= |body[h.length..]|
            && blocks[1..] == Slices(all[i + 1..], body[h.length..])
            && body[TotalLength(all[i..])..] == body[h.length..][TotalLength(all[i + 1..])..]
  {
    assert all[i..][1..] == all[i + 1..];
  }

  lemma PickStep(pkt: Packet, pkts: seq<Packet>, blocks: seq<Block>, chosen: set<nat>)
    requires ValidPacket(pkt) && blocks != [] && (forall b <- blocks :: BlockFits(b)) && (forall i <- chosen :: i < 8)
    ensures blocks[0] in blocks && blocks[0].tsOffset < TS_RANGE && forall b <- blocks[1..] :: BlockFits(b)
    ensures pkts + Pick(pkt, blocks, chosen) ==
      (if |blocks| - 1 in chosen then pkts + [Older(pkt, blocks[0], |blocks|)] else pkts)
      + Pick(pkt, blocks[1..], chosen)
  {
    assert BlockFits(blocks[0]);
  }

  /** All packets of `out` have the header of `pkt` but for number, timestamp and payload type, and the last
      one has its number and timestamp too. */
  ghost predicate KeepsHeader(pkt: Packet, out: seq<Packet>) {
    && out != [] && (forall p <- out :: p.header.rest == pkt.header.rest)
    && out[|out| - 1].header.seqNum == pkt.header.seqNum && out[|out| - 1].header.timestamp == pkt.header.timestamp
  }

  /** Splits a RED packet into the redundant blocks that `recoverBits` flags, oldest first, and the
      primary. */
  method ExtractPackets(pkt: Packet, recoverBits: bv8) returns (r: Result<seq<Packet>, Error>)
    requires ValidPacket(pkt)
    ensures r == Extract(pkt, Bits(recoverBits))
    ensures r.Ok? ==> KeepsHeader(pkt, r.value)
  {
    ExtractExact(pkt, Bits(recoverBits));
    var read := ReadHeads(pkt.payload);
    if read.Err? {
      return Err(read.error);
    }
    var (blocks, pt, blockLength, payload) := read.value;
    if |payload| < blockLength {
      return Err(IncompleteBlock);
    }
    HeadsFit(pkt.payload);
    SlicesBytes(blocks, payload);
    var pkts, data := PickBlocks(pkt, blocks, payload, recoverBits);
    return Ok(pkts + [Packet(pkt.header.(payloadType := pt), data)]);
  }

  /** The primary block of a RED payload. It is the one that decoding finds, and it fails just when
      decoding does, in the same way. */
  method ExtractPrimaryEncoding(payload: seq<byte>) returns (r: Result<seq<byte>, Error>)
    ensures r == match Decode(payload)
                 case Err(e) => Err(e)
                 case Ok(red) => Ok(red.data)
  {
    assert forall hs: seq<Head> :: [] + hs == hs;
    var rest := payload;
    var blockLength := 0;
    ghost var heads: seq<Head> := [];
    while true
      invariant ReadSoFar(payload, heads, rest)
      invariant blockLength == TotalLength(heads)
      decreases |rest|
    {
      if |rest| < 1 {
        return Err(IncompleteHeader);
      }
      if rest[0] < 128 {
        assert heads + [] == heads;
        rest := rest[1..];
        break;
      }
      if |rest| < 4 {
        return Err(IncompleteHeader);
      }
      ReadOneMore(payload, heads, rest);
      LengthInLowBytes(rest);
      heads := heads + [DecodeHead(rest)];
      blockLength := blockLength + ((rest[2] as int) * 0x100 + rest[3]) % 0x400;
      rest := rest[4..];
    }
    if |rest| < blockLength {
      return Err(IncompleteBlock);
    }
    return Ok(rest[blockLength..]);
  }

  /** The length field lies in the last two bytes of a header. */
  lemma LengthInLowBytes(s: seq<byte>)
    requires |s| >= 4
    ensures ((s[2] as int) * 0x100 + s[3]) % 0x400 == DecodeHead(s).length
  {
    var a: int, b: int, c: int, d: int := s[0], s[1], s[2], s[3];
    LowPart(a * 0x4000 + b * 0x40, c * 0x100 + d);
  }

  lemma LowPart(high: int, low: int)
    ensures (high * 0x400 + low) % 0x400 == low % 0x400
  {
  }

  lemma FirstNoted(seqNum: nat)
    requires seqNum < SEQ_RANGE
    ensures Observe(None, seqNum) == (Recent(seqNum, {}), {})
  {
  }

  /** A packet that is not newer than the last one, by the tests that the code makes. */
  lemma LateNoted(w: Recent, seqNum: nat)
    requires ValidRecent(w) && seqNum < SEQ_RANGE
    ensures var diff := Sub(SEQ_RANGE, seqNum, w.last);
            var w' := w.(seen := w.seen + {65535 - diff});
            && (diff == 0 || (diff > 0x8000 && 65535 - diff >= 8) ==> Observe(Some(w), seqNum) == (w, {}))
            && (diff > 0x8000 && 65535 - diff < 8 ==>
                  Observe(Some(w), seqNum) == (w', Missing(w', Sub(SEQ_RANGE, w.last, seqNum))))
  {
    hide Missing;
  }

  /** A newer packet. */
  lemma AheadNoted(w: Recent, seqNum: nat)
    requires ValidRecent(w) && seqNum < SEQ_RANGE
    ensures var diff := Sub(SEQ_RANGE, seqNum, w.last);
            && (8 < diff <= 0x8000 ==>
                  Observe(Some(w), seqNum) == (Recent(seqNum, {}), Missing(Recent(seqNum, {}), 0)))
            && (0 < diff <= 8 ==>
                  Observe(Some(w), seqNum) == (Advanced(w, seqNum, diff), Missing(Advanced(w, seqNum, diff), 0)))
  {
    hide Missing, Advanced;
  }

  class Depacketizer {
    var started: bool
    var lastSeq: nat
    // what was seen of the eight numbers before lastSeq, the nearest lowest
    var pktHistory: bv8

    constructor ()
      ensures Abs() == None
    {
      started, lastSeq, pktHistory := false, 0, 0;
    }

    ghost predicate Valid()
      reads this
    {
      lastSeq < SEQ_RANGE
    }

    ghost function Abs(): (w: Option<Recent>)
      reads this
    {
      if started then Some(Recent(lastSeq, Bits(pktHistory))) else None
    }

    /** Notes the arrival of `seqNum`. Answers whether older blocks are worth a look. */
    method Note(seqNum: nat) returns (needRecover: bool)
      requires Valid() && seqNum < SEQ_RANGE
      modifies this
      ensures Valid() && Abs() == Some(Observe(old(Abs()), seqNum).0)
      ensures Observe(old(Abs()), seqNum).1 ==
        if needRecover then Missing(Abs().value, Sub(SEQ_RANGE, lastSeq, seqNum)) else {}
    {
      hide Bits, OneByte, Observe, Advanced, Missing;
      FirstNoted(seqNum);
      needRecover := false;
      if !started {
        lastSeq := seqNum;
        pktHistory := 0;
        started := true;
        NoBits();
        return;
      }
      ghost var w := Abs().value;
      var diff := Sub(SEQ_RANGE, seqNum, lastSeq);
      LateNoted(w, seqNum);
      AheadNoted(w, seqNum);
      if diff == 0 {
        // seen before
      } else if diff > 0x8000 {
        // late
        if 65535 - diff < 8 {
          OneBit(pktHistory, 65535 - diff);
          pktHistory := pktHistory | OneByte(65535 - diff);
          needRecover := true;
        }
      } else if diff > 8 {
        // beyond the history
        lastSeq := seqNum;
        pktHistory := 0;
        NoBits();
        needRecover := true;
      } else {
        ShiftedBits(w, pktHistory, seqNum, diff);
        lastSeq := seqNum;
        pktHistory := (pktHistory << diff) | OneByte(diff - 1);
        needRecover := true;
      }
    }

    /** The choices worth recovering for `seqNum`, as bits. */
    method Choose(seqNum: nat) returns (recoverBits: bv8)
      requires Valid() && Abs().Some? && seqNum < SEQ_RANGE
      ensures Bits(recoverBits) == Missing(Abs().value, Sub(SEQ_RANGE, lastSeq, seqNum))
    {
      hide OneByte, InByte;
      ghost var w, behind := Abs().value, Sub(SEQ_RANGE, lastSeq, seqNum);
      recoverBits := 0;
      NoBits();
      var bitIndex := Sub(SEQ_RANGE, lastSeq, seqNum);
      var i := 0;
      while i < MAX_RECOVER_COUNT && bitIndex <= 7
        invariant i <= MAX_RECOVER_COUNT && bitIndex == behind + i
        invariant forall k: nat :: k in Bits(recoverBits) <==> k < i && Wanted(w, behind, k)
      {
        ByteTest(pktHistory, bitIndex);
        if pktHistory & OneByte(bitIndex) == 0 {
          OneBit(recoverBits, i);
          recoverBits := recoverBits | OneByte(i);
        }
        bitIndex := bitIndex + 1;
        i := i + 1;
      }
    }

    /** The packets to emit for a RED packet: recovered ones oldest first, then the primary. */
    method Depacketize(pkt: Packet) returns (r: Result<seq<Packet>, Error>)
      requires Valid() && ValidPacket(pkt)
      modifies this
      ensures Valid() && Abs() == Some(Observe(old(Abs()), pkt.header.seqNum).0)
      ensures forall i <- Observe(old(Abs()), pkt.header.seqNum).1 :: i < 8
      ensures r == Extract(pkt, Observe(old(Abs()), pkt.header.seqNum).1)
      ensures r.Ok? ==> KeepsHeader(pkt, r.value)
    {
      hide InByte, Extract, Observe;
      ObserveValid(Abs(), pkt.header.seqNum);
      var needRecover := Note(pkt.header.seqNum);
      var recoverBits: bv8 := 0;
      NoBits();
      if needRecover {
        recoverBits := Choose(pkt.header.seqNum);
      }
      r := ExtractPackets(pkt, recoverBits);
    }
  }

  lemma NoBits()
    ensures Bits(0) == {}
  {
  }
}
