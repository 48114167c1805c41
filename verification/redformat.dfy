/** The RED payload of section 3 of RFC 2198: headers of the redundant blocks, oldest first, the header
    of the primary block, then the data of all blocks in the same order. */
module RedFormat {
  import opened Wrappers

  datatype Error = IncompleteHeader | IncompleteBlock

  /** A redundant block: its payload type, how much older it is than the primary, and its data. */
  datatype Block = Block(pt: nat, tsOffset: nat, data: seq<byte>)

  datatype Red = Red(blocks: seq<Block>, pt: nat, data: seq<byte>)

  datatype Head = Head(pt: nat, tsOffset: nat, length: nat)

  predicate HeadFits(h: Head) {
    h.pt < 128 && h.tsOffset < 16384 && h.length < 1024
  }

  predicate BlockFits(b: Block) {
    HeadFits(HeadOf(b))
  }

  predicate Fits(r: Red) {
    r.pt < 128 && forall b <- r.blocks :: BlockFits(b)
  }

  function HeadOf(b: Block): Head {
    Head(b.pt, b.tsOffset, |b.data|)
  }

  /** F(1) | PT(7) | timestamp offset(14) | length(10), big-endian. */
  function EncodeHead(h: Head): (s: seq<byte>)
    requires HeadFits(h)
    ensures |s| == 4
  {
    [128 + h.pt, h.tsOffset / 64, h.tsOffset % 64 * 4 + h.length / 256, h.length % 256]
  }

  /** The big-endian 32-bit number in the first four bytes. */
  function Word(s: seq<byte>): nat
    requires |s| >= 4
  {
    (s[0] as int) * 0x100_0000 + (s[1] as int) * 0x1_0000 + (s[2] as int) * 0x100 + s[3]
  }

  /** The header in the first four bytes. */
  function DecodeHead(s: seq<byte>): Head
    requires |s| >= 4
  {
    var word := Word(s);
    Head(word / 0x100_0000 % 128, word / 0x400 % 0x4000, word % 0x400)
  }

  lemma HeadRoundTrip(h: Head)
    requires HeadFits(h)
    ensures DecodeHead(EncodeHead(h)) == h
  {
    EncodedWord(h);
    WordParts(128 + h.pt, h.tsOffset, h.length);
  }

  lemma EncodedWord(h: Head)
    requires HeadFits(h)
    ensures Word(EncodeHead(h)) == (128 + h.pt) * 0x100_0000 + h.tsOffset * 0x400 + h.length
  {
  }

  lemma WordParts(a: nat, t: nat, l: nat)
    requires a < 256 && t < 0x4000 && l < 0x400
    ensures var word := a * 0x100_0000 + t * 0x400 + l;
            word / 0x100_0000 == a && word / 0x400 % 0x4000 == t && word % 0x400 == l
  {
  }

  lemma ByteParts(b: nat, q: nat, r: nat, d: nat)
    requires b < 256 && q < 64 && r < 4 && d < 256
    ensures (b * 64 + q) / 64 == b && (b * 64 + q) % 64 == q
    ensures (r * 256 + d) / 256 == r && (r * 256 + d) % 256 == d
  {
  }

  lemma HeadBytes(s: seq<byte>)
    requires |s| >= 4 && s[0] >= 128
    ensures HeadFits(DecodeHead(s)) && EncodeHead(DecodeHead(s)) == s[..4]
  {
    var a, b, c: int := s[0], s[1], s[2];
    var q, r := c / 4, c % 4;
    assert Word(s) == a * 0x100_0000 + (b * 64 + q) * 0x400 + (r * 256 + s[3]);
    WordParts(s[0], s[1] * 64 + q, r * 256 + s[3]);
    ByteParts(s[1], q, r, s[3]);
    HeadOfParts(s, q, r);
  }

  lemma HeadOfParts(s: seq<byte>, q: nat, r: nat)
    requires |s| >= 4 && s[0] >= 128 && q < 64 && r < 4 && s[2] == q * 4 + r
    requires DecodeHead(s) == Head(s[0] % 128, s[1] * 64 + q, r * 256 + s[3])
    requires (s[1] * 64 + q) / 64 == s[1] && (s[1] * 64 + q) % 64 == q
    requires (r * 256 + s[3]) / 256 == r && (r * 256 + s[3]) % 256 == s[3]
    ensures HeadFits(DecodeHead(s)) && EncodeHead(DecodeHead(s)) == s[..4]
  {
    hide DecodeHead;
  }

  function EncodeHeads(blocks: seq<Block>): seq<byte>
    requires forall b <- blocks :: BlockFits(b)
  {
    if blocks == [] then [] else assert BlockFits(blocks[0]); EncodeHead(HeadOf(blocks[0])) + EncodeHeads(blocks[1..])
  }

  function JoinData(blocks: seq<Block>): seq<byte> {
    if blocks == [] then [] else blocks[0].data + JoinData(blocks[1..])
  }

  function Encode(r: Red): seq<byte>
    requires Fits(r)
  {
    EncodeHeads(r.blocks) + [r.pt] + JoinData(r.blocks) + r.data
  }

  /** The headers at the front of a payload, the payload type of the primary, and what follows. */
  function DecodeHeads(payload: seq<byte>): Result<(seq<Head>, nat, seq<byte>), Error> {
    if |payload| < 1 then Err(IncompleteHeader)
    else if payload[0] < 128 then Ok(([], payload[0], payload[1..]))
    else if |payload| < 4 then Err(IncompleteHeader)
    else
      var (heads, pt, rest) :- DecodeHeads(payload[4..]);
      Ok(([DecodeHead(payload)] + heads, pt, rest))
  }

  function TotalLength(heads: seq<Head>): nat {
    if heads == [] then 0 else heads[0].length + TotalLength(heads[1..])
  }

  /** The blocks whose data follow each other in `body`. */
  function Slices(heads: seq<Head>, body: seq<byte>): (blocks: seq<Block>)
    requires TotalLength(heads) <= |body|
    ensures |blocks| == |heads|
  {
    if heads == [] then []
    else
      var h := heads[0];
      [Block(h.pt, h.tsOffset, body[..h.length])] + Slices(heads[1..], body[h.length..])
  }

  function Decode(payload: seq<byte>): Result<Red, Error> {
    var (heads, pt, body) :- DecodeHeads(payload);
    if |body| < TotalLength(heads) then Err(IncompleteBlock)
    else Ok(Red(Slices(heads, body), pt, body[TotalLength(heads)..]))
  }

  function Heads(blocks: seq<Block>): (hs: seq<Head>)
    ensures |hs| == |blocks|
  {
    if blocks == [] then [] else [HeadOf(blocks[0])] + Heads(blocks[1..])
  }

  lemma {:induction false} HeadsRoundTrip(blocks: seq<Block>, pt: byte, rest: seq<byte>)
    requires (forall b <- blocks :: BlockFits(b)) && pt < 128
    ensures DecodeHeads(EncodeHeads(blocks) + [pt] + rest) == Ok((Heads(blocks), pt, rest))
  {
    if blocks == [] {
      assert ([pt] + rest)[1..] == rest;
    } else {
      assert BlockFits(blocks[0]);
      var first, more := EncodeHead(HeadOf(blocks[0])), EncodeHeads(blocks[1..]) + [pt] + rest;
      assert EncodeHeads(blocks) + [pt] + rest == first + more;
      HeadRoundTrip(HeadOf(blocks[0]));
      HeadsRoundTrip(blocks[1..], pt, rest);
      hide EncodeHeads, DecodeHeads, DecodeHead;
      FirstHead(first, more);
    }
  }

  lemma FirstHead(first: seq<byte>, more: seq<byte>)
    requires |first| == 4 && first[0] >= 128
    ensures DecodeHeads(first + more) ==
      match DecodeHeads(more)
      case Err(e) => Err(e)
      case Ok((heads, pt, rest)) => Ok(([DecodeHead(first)] + heads, pt, rest))
  {
    assert (first + more)[4..] == more;
    assert DecodeHead(first + more) == DecodeHead(first);
    hide DecodeHead;
  }

  lemma {:induction false} SlicesRoundTrip(blocks: seq<Block>, data: seq<byte>)
    ensures TotalLength(Heads(blocks)) == |JoinData(blocks)|
    ensures Slices(Heads(blocks), JoinData(blocks) + data) == blocks
  {
    if blocks != [] {
      var b := blocks[0];
      SlicesRoundTrip(blocks[1..], data);
      var rest := JoinData(blocks[1..]) + data;
      Front(b.data, JoinData(blocks[1..]), data);
      assert Heads(blocks)[1..] == Heads(blocks[1..]);
      FirstSlice(Heads(blocks), JoinData(blocks) + data, b, rest);
      assert [b] + blocks[1..] == blocks;
    }
  }

  lemma Front(a: seq<byte>, b: seq<byte>, c: seq<byte>)
    ensures a + b + c == a + (b + c)
    ensures (a + (b + c))[..|a|] == a && (a + (b + c))[|a|..] == b + c
  {
  }

  lemma FirstSlice(heads: seq<Head>, body: seq<byte>, b: Block, rest: seq<byte>)
    requires heads != [] && heads[0] == HeadOf(b) && TotalLength(heads) <= |body|
    requires |b.data| <= |body| && body[..|b.data|] == b.data && body[|b.data|..] == rest
    ensures TotalLength(heads[1..]) <= |rest| && Slices(heads, body) == [b] + Slices(heads[1..], rest)
  {
  }

  /** Decoding inverts encoding, for any number of blocks. */
  lemma RoundTrip(r: Red)
    requires Fits(r)
    ensures Decode(Encode(r)) == Ok(r)
  {
    var body := JoinData(r.blocks) + r.data;
    assert Encode(r) == EncodeHeads(r.blocks) + [r.pt] + body;
    HeadsRoundTrip(r.blocks, r.pt, body);
    SlicesRoundTrip(r.blocks, r.data);
  }

  lemma {:induction false} HeadsFit(payload: seq<byte>)
    requires DecodeHeads(payload).Ok?
    ensures var (heads, pt, rest) := DecodeHeads(payload).value;
            pt < 128 && forall h <- heads :: HeadFits(h)
  {
    hide DecodeHead, EncodeHead;
    if payload[0] >= 128 {
      HeadBytes(payload);
      HeadsFit(payload[4..]);
    }
  }

  lemma {:induction false} HeadsBytes(payload: seq<byte>, blocks: seq<Block>)
    requires DecodeHeads(payload).Ok? && Heads(blocks) == DecodeHeads(payload).value.0
    requires forall b <- blocks :: BlockFits(b)
    ensures var (heads, pt, rest) := DecodeHeads(payload).value;
            pt < 256 && EncodeHeads(blocks) + [pt] + rest == payload
    decreases |payload|
  {
    hide DecodeHead, EncodeHead;
    if payload[0] >= 128 {
      HeadBytes(payload);
      var (heads, pt, rest) := DecodeHeads(payload).value;
      assert heads[1..] == DecodeHeads(payload[4..]).value.0 && Heads(blocks)[1..] == Heads(blocks[1..]);
      HeadsBytes(payload[4..], blocks[1..]);
      assert BlockFits(blocks[0]) && HeadOf(blocks[0]) == DecodeHead(payload);
      assert EncodeHeads(blocks) + [pt] + rest == payload[..4] + (EncodeHeads(blocks[1..]) + [pt] + rest);
    } else {
      assert payload == [payload[0]] + payload[1..];
    }
  }

  lemma {:induction false} SlicesBytes(heads: seq<Head>, body: seq<byte>)
    requires TotalLength(heads) <= |body| && forall h <- heads :: HeadFits(h)
    ensures Heads(Slices(heads, body)) == heads
    ensures forall b <- Slices(heads, body) :: BlockFits(b)
    ensures JoinData(Slices(heads, body)) == body[..TotalLength(heads)]
  {
    if heads != [] {
      var n := heads[0].length;
      SlicesBytes(heads[1..], body[n..]);
      var blocks := Slices(heads, body);
      assert blocks[1..] == Slices(heads[1..], body[n..]);
      assert body[..TotalLength(heads)] == body[..n] + body[n..][..TotalLength(heads[1..])];
    }
  }

  /** Every payload that decodes is the encoding of what it decodes to, so no byte of it is lost. */
  lemma DecodeIsEncoding(payload: seq<byte>)
    requires Decode(payload).Ok?
    ensures Fits(Decode(payload).value) && Encode(Decode(payload).value) == payload
  {
    hide DecodeHeads, EncodeHeads, Slices, TotalLength, JoinData, Heads, HeadFits, BlockFits;
    var (heads, pt, body) := DecodeHeads(payload).value;
    HeadsFit(payload);
    SlicesBytes(heads, body);
    HeadsBytes(payload, Slices(heads, body));
    assert body == JoinData(Slices(heads, body)) + body[TotalLength(heads)..];
    assert Encode(Decode(payload).value) == EncodeHeads(Slices(heads, body)) + [pt] + body;
  }

  /** Where the fields of a header are: seven bits, fourteen and ten, after the bit that announces it. */
  lemma HeadFields(s: seq<byte>)
    requires |s| >= 4
    ensures var (h, a, b, c, d) := (DecodeHead(s), s[0] as int, s[1] as int, s[2] as int, s[3] as int);
            h.pt == a % 128 && h.tsOffset == b * 64 + c / 4 && h.length == c % 4 * 256 + d
  {
    var a, b, c: int := s[0], s[1], s[2];
    var q, r := c / 4, c % 4;
    assert Word(s) == a * 0x100_0000 + (b * 64 + q) * 0x400 + (r * 256 + s[3]);
    WordParts(s[0], s[1] * 64 + q, r * 256 + s[3]);
  }

  lemma {:induction false} JoinParts(a: seq<Block>, b: seq<Block>)
    ensures JoinData(a + b) == JoinData(a) + JoinData(b)
  {
    if a == [] {
      assert a + b == b;
    } else {
      JoinParts(a[1..], b);
      assert (a + b)[1..] == a[1..] + b;
      assert JoinData(a + b) == a[0].data + JoinData((a + b)[1..]);
    }
  }

  lemma {:induction false} HeadAt(blocks: seq<Block>, i: nat)
    requires (forall b <- blocks :: BlockFits(b)) && i < |blocks|
    ensures 4 * i + 4 <= |EncodeHeads(blocks)| && BlockFits(blocks[i])
    ensures EncodeHeads(blocks)[4 * i..4 * i + 4] == EncodeHead(HeadOf(blocks[i]))
  {
    hide EncodeHead;
    assert BlockFits(blocks[0]);
    if i > 0 {
      HeadAt(blocks[1..], i - 1);
      var first, more := EncodeHead(HeadOf(blocks[0])), EncodeHeads(blocks[1..]);
      assert (first + more)[4 * i..4 * i + 4] == more[4 * i - 4..4 * i];
    }
  }

  /** Where each block is in a payload: its header i headers from the front, its data after all headers and
      the data of the blocks before it. */
  lemma BlockPlace(r: Red, i: nat)
    requires Fits(r) && i < |r.blocks|
    ensures BlockFits(r.blocks[i])
    ensures var (s, b, at) := (Encode(r), r.blocks[i], 4 * |r.blocks| + 1 + |JoinData(r.blocks[..i])|);
            && at + |b.data| <= |s|
            && s[4 * i..4 * i + 4] == EncodeHead(HeadOf(b)) && s[4 * |r.blocks|] == r.pt
            && s[at..at + |b.data|] == b.data
  {
    hide EncodeHead, EncodeHeads, BlockFits, HeadOf;
    HeadAt(r.blocks, i);
    HeadsSize(r.blocks);
    var heads, front, b := EncodeHeads(r.blocks), JoinData(r.blocks[..i]), r.blocks[i];
    JoinAt(r.blocks, i);
    Sliced(heads, [r.pt], front, b.data, JoinData(r.blocks[i..][1..]), r.data);
  }

  lemma JoinAt(blocks: seq<Block>, i: nat)
    requires i < |blocks|
    ensures JoinData(blocks) == JoinData(blocks[..i]) + (blocks[i].data + JoinData(blocks[i..][1..]))
  {
    hide JoinData;
    var b := blocks[i..];
    assert blocks == blocks[..i] + b;
    JoinParts(blocks[..i], b);
    JoinFirst(b);
  }

  lemma JoinFirst(blocks: seq<Block>)
    requires blocks != []
    ensures JoinData(blocks) == blocks[0].data + JoinData(blocks[1..])
  {
  }

  lemma Sliced(a: seq<byte>, p: seq<byte>, b: seq<byte>, c: seq<byte>, d: seq<byte>, e: seq<byte>)
    ensures var s := a + p + (b + (c + d)) + e;
            && s[..|a|] == a && s[|a|..|a| + |p|] == p
            && s[|a| + |p| + |b|..|a| + |p| + |b| + |c|] == c
  {
  }

  lemma {:induction false} HeadsSize(blocks: seq<Block>)
    requires forall b <- blocks :: BlockFits(b)
    ensures |EncodeHeads(blocks)| == 4 * |blocks|
  {
    if blocks != [] {
      HeadsSize(blocks[1..]);
    }
  }

  lemma {:induction false} HeadsShort(blocks: seq<Block>, k: nat)
    requires (forall b <- blocks :: BlockFits(b)) && k <= |EncodeHeads(blocks)|
    ensures DecodeHeads(EncodeHeads(blocks)[..k]) == Err(IncompleteHeader)
  {
    if blocks != [] && k > 0 {
      assert BlockFits(blocks[0]);
      var first, more := EncodeHead(HeadOf(blocks[0])), EncodeHeads(blocks[1..]);
      if k >= 4 {
        HeadsShort(blocks[1..], k - 4);
        assert (first + more)[..k][4..] == more[..k - 4];
      }
      assert (first + more)[..k][0] == first[0];
    }
  }

  /** A payload that is cut off fails in its headers or in its redundant data, whichever the cut is in; cut
      in the primary data it decodes to what is left of it. */
  lemma Truncated(r: Red, k: nat)
    requires Fits(r) && k <= |Encode(r)|
    ensures var heads, data := 4 * |r.blocks|, |JoinData(r.blocks)|;
            && |Encode(r)| == heads + 1 + data + |r.data|
            && Decode(Encode(r)[..k]) ==
              if k <= heads then Err(IncompleteHeader)
              else if k < heads + 1 + data then Err(IncompleteBlock)
              else Ok(r.(data := r.data[..k - heads - 1 - data]))
  {
    HeadsSize(r.blocks);
    var heads := EncodeHeads(r.blocks);
    if k <= |heads| {
      HeadsShort(r.blocks, k);
      assert Encode(r)[..k] == heads[..k];
    } else {
      hide DecodeHeads, EncodeHeads, Slices, JoinData, Heads;
      var body := (JoinData(r.blocks) + r.data)[..k - |heads| - 1];
      assert Encode(r)[..k] == heads + [r.pt] + body;
      HeadsRoundTrip(r.blocks, r.pt, body);
      BodyTruncated(r, k - |heads| - 1);
    }
  }

  lemma BodyTruncated(r: Red, k: nat)
    requires Fits(r) && k <= |JoinData(r.blocks) + r.data|
    ensures var n, body := |JoinData(r.blocks)|, (JoinData(r.blocks) + r.data)[..k];
            && TotalLength(Heads(r.blocks)) == n
            && (k >= n ==> Slices(Heads(r.blocks), body) == r.blocks && body[n..] == r.data[..k - n])
  {
    hide Slices, JoinData, Heads;
    SlicesRoundTrip(r.blocks, []);
    if k >= |JoinData(r.blocks)| {
      var left := r.data[..k - |JoinData(r.blocks)|];
      SlicesRoundTrip(r.blocks, left);
      assert (JoinData(r.blocks) + r.data)[..k] == JoinData(r.blocks) + left;
    }
  }
}
