/** What the packet ring of pkg/bucket/bucket.go promises, without slots or indices: a plain map
    from sequence number to packet, over the last `span` numbers up to `head`. */
module PacketWindow {
  import opened Wrappers
  import opened BigEndian
  import opened Modular

  type Packet = seq<byte>

  datatype Error =
    | NoBucket
    | BufferTooSmall
    | PacketTooOld
    | PacketTooNew
    | RTXPacket
    | RTXPacketSize
    | PacketMismatch
    | PacketSizeInvalid
    | PacketTooLarge

  /** The fixed parameters: `range` is 2^bits(ET); `offset` and `snBytes` locate the sequence number
      inside a packet; `maxLen` is the longest packet a slot takes. */
  datatype Layout = Layout(range: nat, offset: nat, snBytes: nat, maxLen: int) {
    ghost predicate Valid() {
      range >= 2 && range % 2 == 0
    }

    function Half(): nat { range / 2 }
  }

  /** The window: `started` once a packet was accepted, `resync` while the next one is to restart it. */
  datatype Window = Window(head: nat, span: nat, packets: map<nat, Packet>, started: bool, resync: bool)

  /** The sequence number carried by a packet. */
  function SnOf(c: Layout, pkt: Packet): nat
    requires c.offset + c.snBytes <= |pkt|
  {
    Get(pkt[c.offset..c.offset + c.snBytes])
  }

  /** The packet with its sequence number overwritten by the low bytes of `sn`. */
  function Stamp(c: Layout, pkt: Packet, sn: nat): (r: Packet)
    requires c.offset + c.snBytes <= |pkt|
    ensures |r| == |pkt|
    ensures forall i | 0 <= i < c.offset || c.offset + c.snBytes <= i < |pkt| :: r[i] == pkt[i]
  {
    pkt[..c.offset] + Put(c.snBytes, sn) + pkt[c.offset + c.snBytes..]
  }

  /** The packet is long enough to carry its number, which is `sn` as truncated to its field. */
  ghost predicate Labelled(c: Layout, pkt: Packet, sn: nat) {
    && c.offset + c.snBytes <= |pkt|
    && SnOf(c, pkt) == Low(c.snBytes, sn)
  }

  ghost predicate ValidWindow(c: Layout, w: Window) {
    && c.Valid()
    && w.head < c.range
    && 0 < w.span <= c.Half()
    && (forall sn <- w.packets :: sn < c.range && Sub(c.range, w.head, sn) < w.span)
    && (forall sn <- w.packets :: Labelled(c, w.packets[sn], sn) && |w.packets[sn]| <= c.maxLen)
    && (!w.started ==> w.packets == map[])
  }

  /** Numbers `sn` that lie within `span` behind `head`. */
  function Retain(c: Layout, packets: map<nat, Packet>, head: nat, span: nat): map<nat, Packet>
    requires head < c.range
  {
    map sn | sn in packets && sn < c.range && Sub(c.range, head, sn) < span :: packets[sn]
  }

  /** The window in which packet `sn` is judged: restarted just before `sn` if it is the first packet
      or a resync was asked for. */
  function Rebase(c: Layout, w: Window, sn: nat): Window
    requires sn < c.range
  {
    var before := if sn > 0 then sn - 1 else c.range - 1;
    if !w.started || w.resync then Window(before, w.span, map[], true, false) else w
  }

  /** Why a late packet is turned away. */
  function Refusal(w: Window, sn: nat, behind: nat, pkt: Packet): Error
    requires behind >= w.span || sn in w.packets
  {
    if behind >= w.span then PacketTooOld
    else if |w.packets[sn]| != |pkt| then RTXPacketSize
    else RTXPacket
  }

  /** The window and the answer once packet `sn` is judged against a settled window. */
  function Place(c: Layout, w: Window, pkt: Packet, sn: nat): (Window, Result<Packet, Error>)
    requires sn < c.range && w.head < c.range
  {
    if 0 < Sub(c.range, sn, w.head) <= c.Half() then
      (w.(head := sn, packets := Retain(c, w.packets, sn, w.span)[sn := pkt]), Ok(pkt))
    else if Sub(c.range, w.head, sn) >= w.span || sn in w.packets then
      (w, Err(Refusal(w, sn, Sub(c.range, w.head, sn), pkt)))
    else (w.(packets := w.packets[sn := pkt]), Ok(pkt))
  }

  function Add(c: Layout, w: Window, pkt: Packet, sn: nat): (Window, Result<Packet, Error>)
    requires sn < c.range && w.head < c.range
  {
    if |pkt| > c.maxLen then (w, Err(PacketTooLarge)) else Place(c, Rebase(c, w, sn), pkt, sn)
  }

  /** The packet numbered `sn`, or why there is none. */
  function Lookup(c: Layout, w: Window, sn: nat): Result<Packet, Error>
    requires sn < c.range && w.head < c.range
  {
    var behind := Sub(c.range, w.head, sn);
    if behind > c.Half() then Err(PacketTooNew)
    else if behind >= w.span then Err(PacketTooOld)
    else if sn !in w.packets then Err(PacketSizeInvalid)
    else Ok(w.packets[sn])
  }

  lemma StampLabels(c: Layout, pkt: Packet, sn: nat)
    requires c.offset + c.snBytes <= |pkt|
    ensures Labelled(c, Stamp(c, pkt, sn), sn)
  {
    var field := Put(c.snBytes, sn);
    GetPut(c.snBytes, sn);
    assert Stamp(c, pkt, sn)[c.offset..c.offset + c.snBytes] == field;
  }

  /** An accepted, labelled packet leaves a valid window; a refused one leaves the window as it was or
      as the rebase left it. */
  lemma AddKeepsValid(c: Layout, w: Window, pkt: Packet, sn: nat)
    requires ValidWindow(c, w) && sn < c.range && Labelled(c, pkt, sn)
    ensures ValidWindow(c, Add(c, w, pkt, sn).0)
    ensures Add(c, w, pkt, sn).1.Ok? ==> Add(c, w, pkt, sn).1.value == pkt
  {
  }

  lemma RefusedKeepsValid(c: Layout, w: Window, pkt: Packet, sn: nat)
    requires ValidWindow(c, w) && sn < c.range && Add(c, w, pkt, sn).1.Err?
    ensures ValidWindow(c, Add(c, w, pkt, sn).0)
  {
  }

  lemma RebaseKeepsValid(c: Layout, w: Window, sn: nat)
    requires ValidWindow(c, w) && sn < c.range
    ensures ValidWindow(c, Rebase(c, w, sn))
  {
  }

  /** Relabelling a packet that was just accepted is the same as adding it relabelled. */
  lemma AddRelabelled(c: Layout, w: Window, pkt: Packet, pkt': Packet, sn: nat)
    requires sn < c.range && w.head < c.range && |pkt| == |pkt'|
    ensures var (was, got) := Add(c, w, pkt, sn);
            Add(c, w, pkt', sn) ==
              if got.Ok? then (was.(packets := was.packets[sn := pkt']), Ok(pkt')) else (was, got)
  {
    var m := Rebase(c, w, sn).packets;
    Overwrite(m, sn, pkt, pkt');
    Overwrite(Retain(c, m, sn, w.span), sn, pkt, pkt');
  }

  lemma Overwrite(m: map<nat, Packet>, sn: nat, pkt: Packet, pkt': Packet)
    ensures m[sn := pkt][sn := pkt'] == m[sn := pkt']
  {
  }

  /** What becomes of a packet. One that is too long for a slot is refused. The first one, and the one after
      a resync, is alone in the window. One up to half the range ahead moves the window, and one behind it
      is taken if its place is in the window and free. */
  lemma AddMeans(c: Layout, w: Window, pkt: Packet, sn: nat)
    requires ValidWindow(c, w) && sn < c.range
    ensures var (w', r) := Add(c, w, pkt, sn);
            var restart, ahead, behind := !w.started || w.resync, Sub(c.range, sn, w.head), Sub(c.range, w.head, sn);
            && w'.span == w.span
            && (r.Ok? ==> r.value == pkt && w'.started && !w'.resync && sn in w'.packets && w'.packets[sn] == pkt)
            && (r.Err? ==> w' == w)
            && (r == Err(PacketTooLarge) <==> |pkt| > c.maxLen)
            && (|pkt| <= c.maxLen && restart ==> r.Ok? && w'.head == sn && w'.packets.Keys == {sn})
            && (|pkt| <= c.maxLen && !restart && 0 < ahead <= c.range / 2 ==>
                  && r.Ok? && w'.head == sn
                  && forall s | s != sn :: s in w'.packets <==>
                       s in w.packets && s < c.range && Sub(c.range, sn, s) < w.span)
            && (|pkt| <= c.maxLen && !restart && !(0 < ahead <= c.range / 2) ==>
                  && (r.Ok? <==> behind < w.span && sn !in w.packets)
                  && (r.Ok? ==> w'.head == w.head && w'.packets.Keys == w.packets.Keys + {sn})
                  && (r == Err(PacketTooOld) <==> behind >= w.span)
                  && (r == Err(RTXPacketSize) <==> behind < w.span && sn in w.packets && |w.packets[sn]| != |pkt|)
                  && (r == Err(RTXPacket) <==> behind < w.span && sn in w.packets && |w.packets[sn]| == |pkt|))
            && (!restart ==> forall s | s in w'.packets && s != sn :: s in w.packets && w'.packets[s] == w.packets[s])
  {
    var (w', r) := Add(c, w, pkt, sn);
    if |pkt| <= c.maxLen && (!w.started || w.resync) {
      var w1 := Rebase(c, w, sn);
      assert Sub(c.range, sn, w1.head) == 1;
      assert Retain(c, w1.packets, sn, w1.span) == map[];
    }
  }

  lemma TooLargeIff(c: Layout, w: Window, pkt: Packet, sn: nat)
    requires ValidWindow(c, w) && sn < c.range
    ensures Add(c, w, pkt, sn).1 == Err(PacketTooLarge) <==> |pkt| > c.maxLen
  {
    hide Add, ValidWindow;
    AddMeans(c, w, pkt, sn);
  }

  /** A lookup finds exactly what the map holds, and says else where the number lies. */
  lemma LookupMeans(c: Layout, w: Window, sn: nat)
    requires ValidWindow(c, w) && sn < c.range
    ensures sn in w.packets ==> Lookup(c, w, sn) == Ok(w.packets[sn])
    ensures sn !in w.packets ==> Lookup(c, w, sn) == Err(Absence(Sub(c.range, w.head, sn), c.range, w.span))
  {
  }

  /** Why there is no packet so far behind the head. */
  function Absence(behind: nat, range: nat, span: nat): (e: Error)
    ensures e == PacketTooNew <==> behind > range / 2
    ensures e == PacketTooOld <==> span <= behind <= range / 2
    ensures e == PacketSizeInvalid <==> behind < span && behind <= range / 2
  {
    if behind > range / 2 then PacketTooNew else if behind >= span then PacketTooOld else PacketSizeInvalid
  }

  lemma WiderKeepsValid(c: Layout, w: Window, added: nat)
    requires ValidWindow(c, w) && w.span + added <= c.Half()
    ensures ValidWindow(c, w.(span := w.span + added))
  {
  }
}
