/** The packet bucket of pkg/bucket/bucket.go: a circular array of byte buffers, each starting with a
    big-endian size. Every method is proved against the map of module `PacketWindow`. */
module Bucket {
  import opened Wrappers
  import opened BigEndian
  import opened Modular
  import opened PacketWindow
  import opened PacketRing
  import opened RingIndex

  const PKT_SIZE_LIMIT := 256 * 1024

  /** Slot bytes that stand for `cell`: the first `header` bytes hold the packet size or the mark of an
      empty slot, and the packet follows. */
  ghost predicate Holds(header: nat, slot: seq<byte>, cell: Option<Packet>) {
    && header <= |slot|
    && var size := Get(slot[..header]);
    match cell
    case None => size == Pow256(header) - 1
    case Some(pkt) =>
      && size == |pkt| < Pow256(header) - 1
      && header + size <= |slot| && slot[header..header + size] == pkt
  }

  /** `copy(dst[at:], src)` when `src` fits. */
  method Copy(dst: array<byte>, at: nat, src: seq<byte>)
    requires at + |src| <= dst.Length
    modifies dst
    ensures dst[..] == old(dst[..at]) + src + old(dst[at + |src|..])
  {
    forall k | 0 <= k < |src| {
      dst[at + k] := src[k];
    }
  }

  /** The buffers of a slice, in no order. */
  ghost function Bag(s: seq<array<byte>>): multiset<array<byte>> {
    multiset(s)
  }

  /** `num` separate empty slots of `size` bytes. */
  method CreateSlots(num: nat, size: nat, header: nat) returns (s: seq<array<byte>>)
    requires header <= size
    ensures |s| == num
    ensures forall i | 0 <= i < num :: fresh(s[i])
    ensures Distinct(s) && HoldAll(size, header, s, seq(num, _ => None))
  {
    s := [];
    for i := 0 to num
      invariant |s| == i
      invariant forall k | 0 <= k < i :: fresh(s[k]) && s[k].Length == size && Holds(header, s[k][..], None)
      invariant forall j, k | 0 <= j < k < i :: s[j] != s[k]
    {
      var slot := new byte[size](_ => 0);
      PutMark(slot, header);
      s := s + [slot];
    }
  }

  lemma {:induction false} DistinctCount(s: seq<array<byte>>, x: array<byte>)
    requires Distinct(s)
    ensures Bag(s)[x] <= 1
  {
    if s != [] {
      var init, last := s[..|s| - 1], s[|s| - 1];
      DistinctCount(init, x);
      assert s == init + [last];
      if last == x {
        assert x !in init;
      }
    }
  }

  lemma RepeatedCount(s: seq<array<byte>>, i: nat, j: nat)
    requires i < j < |s| && s[i] == s[j]
    ensures Bag(s)[s[i]] >= 2
  {
    assert s == s[..j] + s[j..];
    assert s[..j][i] == s[i] && s[j..][0] == s[i];
  }

  /** A permutation of distinct buffers has distinct buffers. */
  lemma BagDistinct(s: seq<array<byte>>, t: seq<array<byte>>)
    requires Bag(s) == Bag(t) && Distinct(s)
    ensures Distinct(t)
    ensures forall b :: b in s <==> b in t
  {
    assert forall b :: (b in s <==> b in Bag(s)) && (b in t <==> b in Bag(t));
    forall i, j | 0 <= i < j < |t|
      ensures t[i] != t[j]
    {
      if t[i] == t[j] {
        RepeatedCount(t, i, j);
        DistinctCount(s, t[i]);
      }
    }
  }

  /** Each buffer has `size` bytes and holds its cell. */
  ghost predicate HoldAll(size: nat, header: nat, g: seq<array<byte>>, held: Cells)
    reads g
  {
    |g| == |held| && forall k | 0 <= k < |g| :: g[k].Length == size && Holds(header, g[k][..], held[k])
  }

  lemma SwappedHold(size: nat, header: nat, g: seq<array<byte>>, held: Cells, i: nat, j: nat)
    requires HoldAll(size, header, g, held) && i < j < |g|
    ensures |held| == |g| && Holds(header, g[i][..], held[i])
    ensures HoldAll(size, header, Swapped(g, i, j), Swapped(held, i, j))
    ensures Bag(Swapped(g, i, j)) == Bag(g)
  {
  }

  method Swap(a: array<array<byte>>, n: nat, i: nat, j: nat)
    requires i < n <= a.Length && j < n
    modifies a
    ensures a[..n] == Swapped(old(a[..n]), i, j)
  {
    a[i], a[j] := a[j], a[i];
  }

  /** Go's `append(s[:n], more...)`: it writes behind the slice when there is room in the backing array,
      and moves to a new array, of a capacity of its choosing, when there is not. */
  method Append(s: array<array<byte>>, n: nat, more: seq<array<byte>>, extra: nat) returns (grown: array<array<byte>>)
    requires n <= s.Length && 0 < |more|
    modifies s
    ensures grown == s || fresh(grown)
    ensures n + |more| <= grown.Length
    ensures s[..n] == old(s[..n])
    ensures grown[..n + |more|] == old(s[..n]) + more
  {
    if n + |more| <= s.Length {
      grown := s;
    } else {
      grown := new array<byte>[n + |more| + extra](_ => more[0]);
      forall k | 0 <= k < n {
        grown[k] := s[k];
      }
    }
    forall k | 0 <= k < |more| {
      grown[n + k] := more[k];
    }
  }

  /** A slot after its size and its packet are written. */
  lemma StoredHolds(header: nat, slot: seq<byte>, pkt: Packet)
    requires header + |pkt| <= |slot| && |pkt| < Pow256(header) - 1
    ensures Holds(header, Put(header, |pkt|) + pkt + slot[header + |pkt|..], Some(pkt))
  {
    var s := Put(header, |pkt|) + pkt + slot[header + |pkt|..];
    GetPut(header, |pkt|);
    LowOfSmall(header, |pkt|);
    assert s[..header] == Put(header, |pkt|);
    assert s[header..header + |pkt|] == pkt;
  }

  lemma EmptiedHolds(header: nat, slot: seq<byte>)
    requires header <= |slot|
    ensures Holds(header, Put(header, Pow256(header) - 1) + slot[header..], None)
  {
    var s := Put(header, Pow256(header) - 1) + slot[header..];
    GetPut(header, Pow256(header) - 1);
    LowOfSmall(header, Pow256(header) - 1);
    assert s[..header] == Put(header, Pow256(header) - 1);
  }

  /** Writes the size of `pkt`, then `pkt`. */
  method PutPacket(slot: array<byte>, header: nat, pkt: Packet)
    requires header + |pkt| <= slot.Length && |pkt| < Pow256(header) - 1
    modifies slot
    ensures Holds(header, slot[..], Some(pkt))
  {
    StoredHolds(header, slot[..], pkt);
    Copy(slot, 0, Put(header, |pkt|));
    assert slot[..header] == Put(header, |pkt|);
    assert slot[header..] == old(slot[header..]);
    Copy(slot, header, pkt);
    assert slot[..] == Put(header, |pkt|) + pkt + old(slot[..])[header + |pkt|..];
  }

  /** Writes the mark of an empty slot. */
  method PutMark(slot: array<byte>, header: nat)
    requires header <= slot.Length
    modifies slot
    ensures Holds(header, slot[..], None)
  {
    EmptiedHolds(header, slot[..]);
    Copy(slot, 0, Put(header, Pow256(header) - 1));
    assert slot[..] == Put(header, Pow256(header) - 1) + old(slot[..])[header..];
  }

  /** The sequence number read from a slot is that of the packet it holds. */
  lemma HeldNumber(header: nat, slot: seq<byte>, held: Packet, offset: nat, num: nat)
    requires Holds(header, slot, Some(held)) && offset + num <= |held|
    ensures header + offset + num <= |slot|
    ensures slot[header + offset..header + offset + num] == held[offset..offset + num]
  {
    var u, v := slot[header + offset..header + offset + num], held[offset..offset + num];
    forall i | 0 <= i < |u|
      ensures u[i] == v[i]
    {
      assert held[offset + i] == slot[header..header + |held|][offset + i];
    }
  }

  lemma HeldBytes(header: nat, slot: seq<byte>, held: Packet)
    requires Holds(header, slot, Some(held))
    ensures header + |held| <= |slot| && slot[header..header + |held|] == held
  {
  }

  /** A slot after the number of the packet in it is overwritten. */
  lemma StampedHolds(header: nat, slot: seq<byte>, c: Layout, pkt: Packet, sn: nat)
    requires Holds(header, slot, Some(pkt)) && c.offset + c.snBytes <= |pkt|
    ensures var at := header + c.offset;
            && at + c.snBytes <= |slot|
            && Holds(header, slot[..at] + Put(c.snBytes, sn) + slot[at + c.snBytes..], Some(Stamp(c, pkt, sn)))
  {
    hide Put;
    HeldBytes(header, slot, pkt);
    SpliceWithin(slot, header, |pkt|, c.offset, Put(c.snBytes, sn));
  }

  /** Bytes written within the packet of a slot leave its header alone. */
  lemma SpliceWithin(slot: seq<byte>, header: nat, n: nat, offset: nat, put: seq<byte>)
    requires header + n <= |slot| && offset + |put| <= n
    ensures var at, p := header + offset, slot[header..header + n];
            var s := slot[..at] + put + slot[at + |put|..];
            && |s| == |slot| && s[..header] == slot[..header]
            && s[header..header + n] == p[..offset] + put + p[offset + |put|..]
  {
  }

  class Bucket {
    const maxPktSize: nat
    const seqNumOffset: nat
    const pktSizeHeader: nat
    const invalidPktSize: nat
    const snBytes: nat
    const range: nat
    const initCapacity: nat
    // The backing array of the Go slice; the slice itself is its first maxSteps entries.
    var slots: array<array<byte>>
    var init: bool
    var resyncOnNextPacket: bool
    var step: nat
    var headSN: nat
    var maxSteps: nat
    // The slots as cells, empty or holding a packet.
    ghost var cells: Cells

    ghost function Lay(): (c: Layout)
      ensures c.range == range && c.offset == seqNumOffset && c.snBytes == snBytes
      ensures c.maxLen == maxPktSize - pktSizeHeader
    {
      Layout(range, seqNumOffset, snBytes, maxPktSize - pktSizeHeader)
    }

    ghost predicate Sized() {
      && maxPktSize <= PKT_SIZE_LIMIT
      && pktSizeHeader == (if maxPktSize < 256 then 1 else if maxPktSize < 65536 then 2 else 4)
      && invalidPktSize == Pow256(pktSizeHeader) - 1
      && range >= 2 && range % 2 == 0 && Pow256(snBytes) <= range
    }

    ghost function Buffers(): set<array<byte>>
      requires maxSteps <= slots.Length
      reads this, slots
    {
      set i | 0 <= i < maxSteps :: slots[i]
    }

    /** The slots are separate buffers of one size, and hold what `cells` says. */
    ghost predicate Slotted()
      reads `slots, `maxSteps, `cells, slots, slots[..]
    {
      && maxSteps <= slots.Length
      && |cells| == maxSteps
      && (forall i, j | 0 <= i < j < maxSteps :: slots[i] != slots[j])
      && forall i | 0 <= i < maxSteps ::
        slots[i].Length == maxPktSize + pktSizeHeader && Holds(pktSizeHeader, slots[i][..], cells[i])
    }

    ghost predicate Valid()
      reads this, slots, slots[..]
    {
      && Sized()
      && Slotted()
      && step < maxSteps && 0 < initCapacity
      && headSN < range
    }

    /** Empty slots, however many. It takes at least one of them, and no more than half the range of
        sequence numbers, to serve as a window. */
    constructor (capacity: nat, maxPktSize: nat, seqNumOffset: nat, range: nat, snBytes: nat)
      requires maxPktSize <= PKT_SIZE_LIMIT
      requires range >= 2 && range % 2 == 0 && Pow256(snBytes) <= range
      ensures Sized() && Slotted() && AllEmpty(cells) && maxSteps == |cells| == capacity
      ensures headSN == step == 0 && !init && !resyncOnNextPacket
      ensures 0 < capacity <= range / 2 ==> Good() && Abs() == Window(0, capacity, map[], false, false)
      ensures this.maxPktSize == maxPktSize && this.seqNumOffset == seqNumOffset && this.range == range
      ensures this.snBytes == snBytes && this.initCapacity == capacity
      ensures fresh(slots) && forall s <- slots[..] :: fresh(s)
    {
      var header := if maxPktSize < 256 then 1 else if maxPktSize < 65536 then 2 else 4;
      this.maxPktSize, this.seqNumOffset, this.range, this.snBytes := maxPktSize, seqNumOffset, range, snBytes;
      pktSizeHeader := header;
      invalidPktSize := Pow256(header) - 1;
      initCapacity, maxSteps := capacity, capacity;
      init, resyncOnNextPacket, step, headSN := false, false, 0, 0;
      cells := seq(capacity, _ => None);
      var empty := CreateSlots(capacity, maxPktSize + header, header);
      slots := new array<byte>[capacity](i requires 0 <= i < |empty| => empty[i]);
      new;
      if 0 < capacity <= range / 2 {
        EmptyRing(range, headSN, step, cells);
      }
    }

    /** The map that the bucket stands for. */
    ghost function Abs(): Window
      requires headSN < range && step < |cells|
      reads this
    {
      Window(headSN, |cells|, Contents(range, headSN, step, cells), init, resyncOnNextPacket)
    }

    method Wrap(slot: int) returns (r: nat)
      requires 0 < maxSteps
      ensures r == Around(slot, maxSteps)
    {
      hide Around;
      var s := slot;
      while s < 0
        invariant Around(s, maxSteps) == Around(slot, maxSteps)
        decreases -s
      {
        AroundShift(s, maxSteps);
        s := s + maxSteps;
      }
      while s >= maxSteps
        invariant 0 <= s && Around(s, maxSteps) == Around(slot, maxSteps)
      {
        AroundShift(s - maxSteps, maxSteps);
        s := s - maxSteps;
      }
      AroundOnce(s, maxSteps);
      r := s;
    }

    /** No packet is long enough for its size to read as the mark of an empty slot. */
    lemma SizesFit()
      requires Sized()
      ensures maxPktSize - pktSizeHeader < invalidPktSize < Pow256(pktSizeHeader)
    {
      assert Pow256(1) == 256 && Pow256(2) == 65536;
      assert Pow256(3) == 16777216 && Pow256(4) == 4294967296;
    }

    method Store(idx: nat, pkt: Packet)
      requires Sized() && Slotted() && idx < maxSteps && |pkt| <= maxPktSize - pktSizeHeader
      modifies `cells, slots[idx]
      ensures Slotted() && cells == old(cells)[idx := Some(pkt)]
    {
      SizesFit();
      PutPacket(slots[idx], pktSizeHeader, pkt);
      cells := cells[idx := Some(pkt)];
    }

    method PutInvalid(idx: nat)
      requires Sized() && Slotted() && idx < maxSteps
      modifies `cells, slots[idx]
      ensures Slotted() && cells == old(cells)[idx := None]
    {
      PutMark(slots[idx], pktSizeHeader);
      cells := cells[idx := None];
    }

    method Invalidate(startSlot: nat, num: nat)
      requires Sized() && Slotted() && startSlot < maxSteps
      modifies `cells, Buffers()
      ensures Slotted() && cells == EmptyArc(old(cells), startSlot, num)
    {
      hide Around;
      var numSlots := if num > maxSteps then maxSteps else num;
      assert EmptyArc(cells, startSlot, 0) == cells;
      for i := 0 to numSlots
        invariant Slotted() && cells == EmptyArc(old(cells), startSlot, i)
      {
        var idx := Wrap(startSlot + i);
        EmptyArcNext(old(cells), startSlot, i, idx);
        PutInvalid(idx);
      }
      if num > maxSteps {
        EmptyArcAll(old(cells), startSlot, num);
      }
    }

    ghost predicate Good()
      reads this, slots, slots[..]
    {
      Valid() && ValidWindow(Lay(), Abs())
    }

    /** The slot writes of a push: the gap of `diff` numbers is emptied, and `pkt` goes after it. */
    method StoreAfterGap(diff: nat, pkt: Packet) returns (idx: nat)
      requires Valid() && |pkt| <= maxPktSize - pktSizeHeader
      modifies `cells, Buffers()
      ensures Valid()
      ensures idx == Around(step + diff, maxSteps)
      ensures cells == EmptyArc(old(cells), step, diff)[idx := Some(pkt)]
    {
      hide Around;
      Invalidate(step, diff);
      idx := Wrap(step + diff);
      Store(idx, pkt);
    }

    /** Stores `sn`, which is `diff + 1` ahead of the head. */
    method Push(sn: nat, diff: nat, pkt: Packet) returns (idx: nat)
      requires Valid() && maxSteps <= range / 2 && |pkt| <= maxPktSize - pktSizeHeader
      requires sn < range && 0 < Sub(range, sn, headSN) <= range / 2 && diff == Sub(range, sn, headSN) - 1
      modifies `headSN, `step, `cells, Buffers()
      ensures Valid() && Stored(sn, idx, pkt)
      ensures var w := old(Abs());
              Abs() == w.(head := sn, packets := Retain(Lay(), w.packets, sn, w.span)[sn := pkt])
    {
      hide Contents, Retain, EmptyArc, Around, Pushed;
      idx := StoreAfterGap(diff, pkt);
      var next := Wrap(step + diff + 1);
      PushedByIndex(Lay(), headSN, step, old(cells), sn, pkt, idx, next);
      PushCell(Lay(), headSN, step, old(cells), sn, cells, next, pkt);
      headSN := sn;
      step := next;
    }

    /** Slot `idx` is where the packet numbered `sn` belongs, and it holds `pkt`. */
    ghost predicate Stored(sn: nat, idx: nat, pkt: Packet)
      requires headSN < range && step < |cells|
      reads this
    {
      && sn < range && Sub(range, headSN, sn) < |cells|
      && idx == CellOf(step, Sub(range, headSN, sn), |cells|)
      && cells[idx] == Some(pkt)
    }

    /** The size in the header of a slot is that of the packet in it, or the mark if there is none. */
    method ReadSize(idx: nat) returns (size: nat)
      requires Sized() && Slotted() && idx < maxSteps
      ensures idx < |cells| == maxSteps
      ensures size == match cells[idx] case None => invalidPktSize case Some(pkt) => |pkt|
      ensures cells[idx].Some? ==> size != invalidPktSize
    {
      size := Get(slots[idx][..pktSizeHeader]);
    }

    /** The sequence number in the bytes of a full slot is that of the packet in it. */
    method ReadSeqNum(idx: nat) returns (num: nat)
      requires Sized() && Slotted() && idx < maxSteps && cells[idx].Some?
      requires seqNumOffset + snBytes <= |cells[idx].value|
      ensures num == SnOf(Lay(), cells[idx].value)
    {
      HeldNumber(pktSizeHeader, slots[idx][..], cells[idx].value, seqNumOffset, snBytes);
      var at := pktSizeHeader + seqNumOffset;
      num := Get(slots[idx][at..at + snBytes]);
    }

    method ReadPacket(idx: nat, size: nat) returns (pkt: Packet)
      requires Sized() && Slotted() && idx < maxSteps && cells[idx].Some? && size == |cells[idx].value|
      ensures pkt == cells[idx].value
    {
      HeldBytes(pktSizeHeader, slots[idx][..], cells[idx].value);
      pkt := slots[idx][pktSizeHeader..pktSizeHeader + size];
    }

    /** Fills the empty slot that belongs to `sn`. */
    method FillLate(sn: nat, idx: nat, pkt: Packet)
      requires Good() && |pkt| <= maxPktSize - pktSizeHeader
      requires sn < range && Sub(range, headSN, sn) < |cells| && idx == CellOf(step, Sub(range, headSN, sn), |cells|)
      modifies `cells, Buffers()
      ensures Valid() && Stored(sn, idx, pkt)
      ensures Abs() == old(Abs()).(packets := old(Abs()).packets[sn := pkt])
    {
      hide Contents, ValidWindow;
      LateCell(Lay(), Abs(), step, cells, sn, pkt);
      Store(idx, pkt);
    }

    lemma SlotCount()
      requires Slotted()
      ensures maxSteps == |cells|
    {
    }

    /** Stores `sn`, which is `diff` behind the head, unless that place is taken or out of the window. */
    method Set(sn: nat, diff: nat, pkt: Packet) returns (r: Result<nat, Error>)
      requires Good() && |pkt| <= maxPktSize - pktSizeHeader
      requires sn < range && diff == Sub(range, headSN, sn)
      modifies `cells, Buffers()
      ensures Valid()
      ensures r.Ok? <==> diff < maxSteps && sn !in old(Abs()).packets
      ensures r.Ok? ==> Stored(sn, r.value, pkt)
      ensures r.Ok? ==> Abs() == old(Abs()).(packets := old(Abs()).packets[sn := pkt])
      ensures r.Err? ==> Abs() == old(Abs()) && r.error == Refusal(old(Abs()), sn, diff, pkt)
    {
      hide Contents, Retain, ValidWindow, Around, Slotted;
      SlotCount();
      if diff >= maxSteps {
        return Err(PacketTooOld);
      }
      AroundOnce(step - diff - 1, maxSteps);
      var idx := Wrap(step - diff - 1);
      LateCell(Lay(), Abs(), step, cells, sn, pkt);
      var size := ReadSize(idx);
      if size != invalidPktSize {
        if size != |pkt| {
          return Err(RTXPacketSize);
        }
        var storedSN := ReadSeqNum(idx);
        if storedSN == Low(snBytes, sn) {
          return Err(RTXPacket);
        }
        return Err(PacketMismatch);
      }
      FillLate(sn, idx, pkt);
      return Ok(idx);
    }

    method ResyncOnNextPacket()
      requires Good()
      modifies `resyncOnNextPacket
      ensures Good() && Abs() == old(Abs()).(resync := true)
    {
      resyncOnNextPacket := true;
    }

    /** The restart of the window for a first packet, or for the one that follows a resync. */
    method Restart(sn: nat)
      requires Valid() && (!init ==> AllEmpty(cells)) && sn < range
      modifies `init, `resyncOnNextPacket, `headSN, `cells, Buffers()
      ensures Valid() && init && !resyncOnNextPacket
      ensures if old(init) && !old(resyncOnNextPacket) then headSN == old(headSN) && cells == old(cells)
              else headSN == (if sn > 0 then sn - 1 else range - 1) && AllEmpty(cells)
    {
      hide Holds, Contents;
      if !init {
        headSN := if sn > 0 then sn - 1 else range - 1;
        init := true;
      }
      if resyncOnNextPacket {
        resyncOnNextPacket := false;
        headSN := if sn > 0 then sn - 1 else range - 1;
        Invalidate(0, maxSteps);
      }
    }

    /** The window after a restart. */
    twostate lemma Restarted(sn: nat)
      requires old(Good()) && Valid() && init && !resyncOnNextPacket && sn < range
      requires step == old(step) && |cells| == old(|cells|)
      requires if old(init) && !old(resyncOnNextPacket) then headSN == old(headSN) && cells == old(cells)
               else headSN == (if sn > 0 then sn - 1 else range - 1) && AllEmpty(cells)
      ensures Good() && Abs() == Rebase(Lay(), old(Abs()), sn)
    {
      EmptyRing(range, headSN, step, cells);
      RebaseKeepsValid(Lay(), old(Abs()), sn);
    }

    method AddPacketAt(pkt: Packet, sn: nat) returns (r: Result<nat, Error>)
      requires Good() && sn < range
      modifies `init, `resyncOnNextPacket, `headSN, `step, `cells, Buffers()
      ensures Valid()
      ensures Abs() == Add(Lay(), old(Abs()), pkt, sn).0
      ensures r.Ok? <==> Add(Lay(), old(Abs()), pkt, sn).1.Ok?
      ensures r.Err? ==> r.error == Add(Lay(), old(Abs()), pkt, sn).1.error
      ensures r.Ok? ==> Stored(sn, r.value, pkt)
    {
      hide Contents, Retain;
      if |pkt| > maxPktSize - pktSizeHeader {
        return Err(PacketTooLarge);
      }
      EmptyRing(range, headSN, step, cells);
      Restart(sn);
      Restarted(sn);
      var diff := Sub(range, sn, headSN);
      if diff == 0 || diff > range / 2 {
        r := Set(sn, Sub(range, headSN, sn), pkt);
      } else {
        var idx := Push(sn, diff - 1, pkt);
        r := Ok(idx);
      }
    }

    method AddPacket(pkt: Packet) returns (r: Result<Packet, Error>)
      requires Good() && seqNumOffset + snBytes <= |pkt|
      modifies `init, `resyncOnNextPacket, `headSN, `step, `cells, Buffers()
      ensures Good()
      ensures SnOf(Lay(), pkt) < range && (Abs(), r) == Add(Lay(), old(Abs()), pkt, SnOf(Lay(), pkt))
      ensures r == Err(PacketTooLarge) <==>
        |pkt| > maxPktSize - if maxPktSize < 256 then 1 else if maxPktSize < 65536 then 2 else 4
    {
      hide Contents, Retain, Place, Holds;
      var sn := Get(pkt[seqNumOffset..seqNumOffset + snBytes]);
      GetBound(pkt[seqNumOffset..seqNumOffset + snBytes]);
      LowOfSmall(snBytes, sn);
      AddKeepsValid(Lay(), Abs(), pkt, sn);
      TooLargeIff(Lay(), Abs(), pkt, sn);
      var at := AddPacketAt(pkt, sn);
      r := if at.Ok? then Ok(pkt) else Err(at.error);
    }

    /** Overwrites the sequence number of the packet stored in slot `idx`. */
    method PutSeqNum(idx: nat, ghost pkt: Packet, sn: nat)
      requires Sized() && Slotted() && idx < maxSteps && cells[idx] == Some(pkt) && seqNumOffset + snBytes <= |pkt|
      modifies `cells, slots[idx]
      ensures Slotted() && cells == old(cells)[idx := Some(Stamp(Lay(), pkt, sn))]
      ensures pktSizeHeader + |pkt| <= slots[idx].Length
      ensures slots[idx][pktSizeHeader..pktSizeHeader + |pkt|] == Stamp(Lay(), pkt, sn)
    {
      hide Stamp, Holds, Put;
      StampedHolds(pktSizeHeader, slots[idx][..], Lay(), pkt, sn);
      Copy(slots[idx], pktSizeHeader + seqNumOffset, Put(snBytes, sn));
      cells := cells[idx := Some(Stamp(Lay(), pkt, sn))];
      HeldBytes(pktSizeHeader, slots[idx][..], Stamp(Lay(), pkt, sn));
    }

    /** The stored packet `sn` gets that number in its bytes. */
    method Relabel(sn: nat, idx: nat, pkt: Packet) returns (stored: Packet)
      requires Valid() && maxSteps <= range && Stored(sn, idx, pkt) && seqNumOffset + snBytes <= |pkt|
      modifies `cells, Buffers()
      ensures Valid() && stored == Stamp(Lay(), pkt, sn)
      ensures Abs() == old(Abs()).(packets := old(Abs()).packets[sn := stored])
    {
      hide Contents, Holds, Stamp;
      FillCell(range, headSN, step, cells, sn, Stamp(Lay(), pkt, sn));
      PutSeqNum(idx, pkt, sn);
      return slots[idx][pktSizeHeader..pktSizeHeader + |pkt|];
    }

    method AddPacketWithSequenceNumber(pkt: Packet, sn: nat) returns (r: Result<Packet, Error>)
      requires Good() && sn < range
      requires Add(Lay(), Abs(), pkt, sn).1.Ok? ==> seqNumOffset + snBytes <= |pkt|
      modifies `init, `resyncOnNextPacket, `headSN, `step, `cells, Buffers()
      ensures Good()
      ensures seqNumOffset + snBytes <= |pkt| ==>
        (Abs(), r) == Add(Lay(), old(Abs()), Stamp(Lay(), pkt, sn), sn)
      ensures seqNumOffset + snBytes > |pkt| ==> (Abs(), r) == Add(Lay(), old(Abs()), pkt, sn)
    {
      hide Contents, Retain, Place, Holds, Rebase, Add, Stamp;
      if seqNumOffset + snBytes > |pkt| {
        RefusedKeepsValid(Lay(), Abs(), pkt, sn);
        var refused := AddPacketAt(pkt, sn);
        return Err(refused.error);
      }
      ghost var stamped := Stamp(Lay(), pkt, sn);
      StampLabels(Lay(), pkt, sn);
      AddRelabelled(Lay(), Abs(), pkt, stamped, sn);
      AddKeepsValid(Lay(), Abs(), stamped, sn);
      var at := AddPacketAt(pkt, sn);
      if at.Err? {
        return Err(at.error);
      }
      var stored := Relabel(sn, at.value, pkt);
      return Ok(stored);
    }

    /** The buffers hold these cells. */
    ghost predicate Hold(g: seq<array<byte>>, held: Cells)
      reads g
    {
      HoldAll(maxPktSize + pktSizeHeader, pktSizeHeader, g, held)
    }

    /** The buffers hold the cells as they are once all from `i` on are moved. */
    ghost predicate Moved(g: seq<array<byte>>, i: nat, held: Cells)
      reads `cells, g
    {
      |g| == |cells| + initCapacity && Spread(cells, i, initCapacity, held) && Hold(g, held)
    }

    /** One step of the move: slot `i`, if it holds a packet, changes places with the one above it. The
        slot that is read is that of the old slice, which `grown` may or may not share. */
    method MoveSlot(grown: array<array<byte>>, i: nat, n: nat, ghost held: Cells) returns (ghost held': Cells)
      requires Sized() && 0 < initCapacity && i < |cells| && i < slots.Length
      requires n == |cells| + initCapacity <= grown.Length
      requires slots[..i + 1] == grown[..i + 1] && Moved(grown[..n], i + 1, held)
      modifies grown
      ensures slots[..i] == grown[..i] && Moved(grown[..n], i, held')
      ensures Bag(grown[..n]) == old(Bag(grown[..n]))
    {
      hide HoldAll, Spread, Bag;
      SpreadDown(cells, i, initCapacity, held);
      SwappedHold(maxPktSize + pktSizeHeader, pktSizeHeader, grown[..n], held, i, i + initCapacity);
      assert slots[i] == slots[..i + 1][i] == grown[..n][i];
      var size := Get(slots[i][..pktSizeHeader]);
      held' := held;
      if size != invalidPktSize {
        Swap(grown, n, i, i + initCapacity);
        held' := Swapped(held, i, i + initCapacity);
      }
      assert slots[..i] == slots[..i + 1][..i] && grown[..i] == grown[..n][..i];
    }

    method MoveWrapped(grown: array<array<byte>>, n: nat, ghost held0: Cells) returns (ghost held: Cells)
      requires Sized() && 0 < initCapacity && step <= maxSteps == |cells| <= slots.Length
      requires n == |cells| + initCapacity <= grown.Length
      requires slots[..maxSteps] == grown[..maxSteps] && Moved(grown[..n], maxSteps, held0)
      modifies grown
      ensures Moved(grown[..n], step, held) && Bag(grown[..n]) == old(Bag(grown[..n]))
    {
      hide Moved, Bag;
      held := held0;
      for i := maxSteps downto step
        invariant Moved(grown[..n], i, held) && slots[..i] == grown[..i]
        invariant Bag(grown[..n]) == old(Bag(grown[..n]))
      {
        held := MoveSlot(grown, i, n, held);
      }
    }

    /** The slices of a valid bucket and of the new slots, put together. */
    lemma Appended(newSlots: seq<array<byte>>, g: seq<array<byte>>)
      requires Slotted() && g == slots[..maxSteps] + newSlots
      requires forall i | 0 <= i < |newSlots| :: newSlots[i] !in slots[..maxSteps]
      requires Distinct(newSlots)
      requires Hold(newSlots, seq(|newSlots|, _ => None))
      ensures Distinct(g) && Hold(g, cells + seq(|newSlots|, _ => None))
      ensures Spread(cells, maxSteps, |newSlots|, cells + seq(|newSlots|, _ => None))
      ensures |g| == maxSteps + |newSlots| && maxSteps == |cells|
    {
    }

    /** The end of a growth: the grown slice replaces the old one. */
    method Install(grown: array<array<byte>>, capacity: nat, ghost held: Cells)
      requires 0 < capacity <= grown.Length && Distinct(grown[..capacity])
      requires Hold(grown[..capacity], held)
      modifies `slots, `cells, `maxSteps
      ensures Slotted() && slots == grown && cells == held && maxSteps == capacity
    {
      hide Holds;
      ghost var g := grown[..capacity];
      assert forall k | 0 <= k < capacity :: g[k] == grown[k];
      slots := grown;
      cells := held;
      maxSteps := capacity;
    }

    /** The old slice and new slots, appended and rearranged. */
    method GrownSlots(n: nat, extra: nat) returns (grown: array<array<byte>>, ghost held: Cells)
      requires Valid() && n == maxSteps + initCapacity
      modifies slots
      ensures n <= grown.Length && Distinct(grown[..n]) && Spread(cells, step, initCapacity, held)
      ensures Hold(grown[..n], held)
      ensures forall b <- old(slots[..maxSteps]) :: b in grown[..n]
      ensures forall b <- grown[..n] :: b in old(slots[..maxSteps]) || fresh(b)
    {
      hide Holds, Spread, HoldAll, Distinct, Bag;
      ghost var before := slots[..maxSteps];
      var newSlots := CreateSlots(initCapacity, maxPktSize + pktSizeHeader, pktSizeHeader);
      Appended(newSlots, before + newSlots);
      grown := Append(slots, maxSteps, newSlots, extra);
      held := MoveWrapped(grown, n, cells + seq(initCapacity, _ => None));
      BagDistinct(before + newSlots, grown[..n]);
    }

    /** Adds the initial capacity once more. `extra` is the spare capacity that `append` leaves if it
        has to move the slice. Up to half the range of sequence numbers the map stays as it was. */
    method Grow(extra: nat) returns (capacity: nat)
      requires Valid()
      modifies `slots, `cells, `maxSteps, slots
      ensures Valid() && maxSteps == capacity == old(maxSteps) + initCapacity
      ensures Spread(old(cells), step, initCapacity, cells)
      ensures old(Good()) && maxSteps <= range / 2 ==>
        Good() && Abs() == old(Abs()).(span := old(Abs()).span + initCapacity)
      ensures forall b <- old(slots[..maxSteps]) :: b in slots[..maxSteps]
      ensures forall b <- slots[..maxSteps] :: b in old(slots[..maxSteps]) || fresh(b)
    {
      hide Contents, Retain, HoldAll, Distinct, ValidWindow, Spread;
      ghost var w := Abs();
      ghost var wide := ValidWindow(Lay(), w) && maxSteps + initCapacity <= range / 2;
      if wide {
        WiderKeepsValid(Lay(), w, initCapacity);
      }
      capacity := maxSteps + initCapacity;
      var grown, held := GrownSlots(capacity, extra);
      SpreadKeepsContents(range, headSN, step, cells, initCapacity, held);
      Install(grown, capacity, held);
    }

    /** The packet `diff` behind the head, by its slot; a negative `diff` is ahead of the head. */
    method Fetch(sn: nat, diff: int) returns (r: Result<Packet, Error>)
      requires Good() && sn < range
      requires diff == (var behind := Sub(range, headSN, sn);
                        if behind > range / 2 then -(Sub(range, sn, headSN) as int) else behind)
      ensures r == Lookup(Lay(), Abs(), sn)
    {
      hide Contents, ValidWindow, Around, Sized, Slotted;
      SlotCount();
      if diff < 0 {
        return Err(PacketTooNew);
      }
      if diff >= maxSteps {
        return Err(PacketTooOld);
      }
      AroundOnce(step - diff - 1, maxSteps);
      var idx := Wrap(step - diff - 1);
      LateCell(Lay(), Abs(), step, cells, sn, []);
      var size := ReadSize(idx);
      if size == invalidPktSize {
        return Err(PacketSizeInvalid);
      }
      var cacheSN := ReadSeqNum(idx);
      if cacheSN != Low(snBytes, sn) {
        return Err(PacketMismatch);
      }
      var pkt := ReadPacket(idx, size);
      return Ok(pkt);
    }
  }

  /** Copies packet `sn` into the slice of the first `len` bytes of `buf`, which is lengthened if the packet
      fits the backing array only. */
  method GetPacket(b: Bucket?, buf: array<byte>, len: nat, sn: nat) returns (r: Result<nat, Error>)
    requires len <= buf.Length
    requires b != null ==> b.Good() && sn < b.range && buf !in b.slots[..]
    modifies buf
    ensures b == null ==> r == Err(NoBucket)
    ensures b != null && sn in b.Abs().packets ==>
      r == if |b.Abs().packets[sn]| <= buf.Length then Ok(|b.Abs().packets[sn]|) else Err(BufferTooSmall)
    ensures b != null && sn !in b.Abs().packets ==>
      r == Err(Absence(Sub(b.range, b.headSN, sn), b.range, b.maxSteps))
    ensures r.Err? ==> buf[..] == old(buf[..])
    ensures r.Ok? ==> r.value <= buf.Length && buf[..r.value] == b.Abs().packets[sn]
    ensures r.Ok? ==> buf[r.value..] == old(buf[r.value..])
    ensures b != null ==> b.Good() && b.Abs() == old(b.Abs())
  {
    hide Contents, ValidWindow, Bucket.Sized, Bucket.Slotted;
    if b == null {
      return Err(NoBucket);
    }
    b.SlotCount();
    LookupMeans(b.Lay(), b.Abs(), sn);
    var behind := Sub(b.range, b.headSN, sn);
    var p;
    if behind > b.range / 2 {
      p := b.Fetch(sn, -(Sub(b.range, sn, b.headSN) as int));
    } else {
      p := b.Fetch(sn, behind);
    }
    if p.Err? {
      return Err(p.error);
    }
    if buf.Length < |p.value| {
      return Err(BufferTooSmall);
    }
    var upto := len;
    if upto < |p.value| {
      upto := |p.value|;
    }
    var n := if upto < |p.value| then upto else |p.value|;
    Copy(buf, 0, p.value[..n]);
    return Ok(|p.value|);
  }

  /** A bucket with `capacity` empty slots, or null when the packets are too large. */
  method NewBucket(capacity: nat, maxPktSize: nat, seqNumOffset: nat, etBytes: nat, snBytes: nat)
    returns (b: Bucket?)
    requires snBytes <= etBytes && etBytes in {2, 4, 8}
    ensures b == null <==> maxPktSize > PKT_SIZE_LIMIT
    ensures b != null ==> fresh(b) && fresh(b.slots) && (forall s <- b.slots[..] :: fresh(s))
    ensures b != null ==>
      && b.Sized() && b.Slotted() && AllEmpty(b.cells) && b.maxSteps == b.initCapacity == capacity
      && b.maxPktSize == maxPktSize && b.range == Pow256(etBytes) && b.seqNumOffset == seqNumOffset
      && b.snBytes == snBytes
    ensures b != null && 0 < capacity <= Pow256(etBytes) / 2 ==>
      b.Good() && b.Abs() == Window(0, capacity, map[], false, false)
  {
    if maxPktSize > PKT_SIZE_LIMIT {
      return null;
    }
    PowMonotone(snBytes, etBytes);
    b := new Bucket(capacity, maxPktSize, seqNumOffset, Pow256(etBytes), snBytes);
  }
}
