/** The ring inside the packet bucket: a vector of cells, each empty or holding a packet, written at
    the circular index `step`. The lemmas here say that each cell update of the ring is the
    corresponding update of the map it stands for. */
module PacketRing {
  import opened Wrappers
  import opened Modular
  import opened PacketWindow
  import opened RingIndex

  type Cells = seq<Option<Packet>>

  /** The cell of the packet `behind` places before the head. */
  function CellOf(step: nat, behind: nat, span: nat): (i: nat)
    requires step < span && behind < span
    ensures i < span
  {
    if behind < step then step - behind - 1 else step - behind - 1 + span
  }

  /** The map that the ring stands for. */
  ghost function Contents(range: nat, head: nat, step: nat, cells: Cells): (m: map<nat, Packet>)
    requires head < range && step < |cells|
  {
    map sn: nat | sn < range && Sub(range, head, sn) < |cells| && Cell(range, head, step, cells, sn).Some?
      :: Cell(range, head, step, cells, sn).value
  }

  ghost function Cell(range: nat, head: nat, step: nat, cells: Cells, sn: nat): Option<Packet>
    requires head < range && step < |cells| && sn < range && Sub(range, head, sn) < |cells|
  {
    cells[CellOf(step, Sub(range, head, sn), |cells|)]
  }

  /** Filling the cell of `sn` adds `sn` to the map, and touches no other number. */
  lemma FillCell(range: nat, head: nat, step: nat, cells: Cells, sn: nat, pkt: Packet)
    requires head < range && step < |cells| <= range && sn < range && Sub(range, head, sn) < |cells|
    ensures var i := CellOf(step, Sub(range, head, sn), |cells|);
            Contents(range, head, step, cells[i := Some(pkt)]) == Contents(range, head, step, cells)[sn := pkt]
  {
    var i := CellOf(step, Sub(range, head, sn), |cells|);
    var m, m' := Contents(range, head, step, cells), Contents(range, head, step, cells[i := Some(pkt)]);
    forall s: nat | s < range && Sub(range, head, s) < |cells| && s != sn
      ensures Cell(range, head, step, cells[i := Some(pkt)], s) == Cell(range, head, step, cells, s)
    {
    }
    assert sn in m';
    assert m'.Keys == m[sn := pkt].Keys;
  }

  /** The cells after `num` of them, from `start` on and going round, are emptied. */
  ghost function EmptyArc(cells: Cells, start: nat, num: nat): (r: Cells)
    ensures |r| == |cells|
  {
    seq(|cells|, i requires 0 <= i < |cells| => if InArc(i, start, num, |cells|) then None else cells[i])
  }

  /** Cell `i` is one of the `num` cells that follow `start` on a ring of `span` cells. */
  predicate InArc(i: nat, start: nat, num: nat, span: nat)
  {
    if start <= i then i - start < num else i + span - start < num
  }

  lemma EmptyArcNext(cells: Cells, start: nat, num: nat, idx: nat)
    requires start < |cells| && num < |cells| && idx == Around(start + num, |cells|)
    ensures EmptyArc(cells, start, num)[idx := None] == EmptyArc(cells, start, num + 1)
  {
    hide Around;
    AroundOnce(start + num, |cells|);
  }

  /** Emptying more cells than there are empties each once. */
  lemma EmptyArcAll(cells: Cells, start: nat, num: nat)
    requires start < |cells| <= num
    ensures EmptyArc(cells, start, |cells|) == EmptyArc(cells, start, num)
  {
  }

  /** What one push does to the cell of a number `s` that is `age` behind the new head, `ahead` places
      past the old one: skipped numbers get emptied cells, older ones keep the cell they had. */
  lemma PushIndex(step: nat, span: nat, ahead: nat, idx: nat, step': nat, age: nat)
    requires step < span && 0 < ahead && 0 < age < span && idx < span
    requires ahead <= span ==> idx == if step + ahead - 1 < span then step + ahead - 1 else step + ahead - 1 - span
    requires step' == if idx + 1 == span then 0 else idx + 1
    ensures CellOf(step', age, span) != idx
    ensures age < ahead ==> InArc(CellOf(step', age, span), step, ahead - 1, span)
    ensures age >= ahead ==> !InArc(CellOf(step', age, span), step, ahead - 1, span)
    ensures age >= ahead ==> CellOf(step', age, span) == CellOf(step, age - ahead, span)
  {
  }

  lemma PushAge(c: Layout, head: nat, sn: nat, s: nat)
    requires c.Valid() && head < c.range && sn < c.range && s < c.range
    requires 0 < Sub(c.range, sn, head) <= c.Half()
    ensures var age, ahead := Sub(c.range, sn, s), Sub(c.range, sn, head);
            Sub(c.range, head, s) == if age < ahead then age - ahead + c.range else age - ahead
  {
  }

  /** A push of `sn` over a gap, as it acts on the cells. */
  ghost predicate Pushed(c: Layout, head: nat, step: nat, cells: Cells, sn: nat, cells': Cells, step': nat, pkt: Packet)
  {
    && c.Valid() && head < c.range && sn < c.range && step < |cells| <= c.Half()
    && var ahead := Sub(c.range, sn, head);
    && 0 < ahead <= c.Half()
    && |cells'| == |cells| && step' < |cells|
    && var idx := CellOf(step', 0, |cells|);
    && (ahead <= |cells| ==> idx == if step + ahead - 1 < |cells| then step + ahead - 1 else step + ahead - 1 - |cells|)
    && cells'[idx] == Some(pkt)
    && forall i | 0 <= i < |cells| && i != idx ::
      cells'[i] == if InArc(i, step, ahead - 1, |cells|) then None else cells[i]
  }

  /** The indices that a push computes by remainders are the ones it means. */
  lemma PushedByIndex(c: Layout, head: nat, step: nat, cells: Cells, sn: nat, pkt: Packet, idx: nat, step': nat)
    requires c.Valid() && head < c.range && sn < c.range && step < |cells| <= c.Half()
    requires 0 < Sub(c.range, sn, head) <= c.Half()
    requires idx == Around(step + Sub(c.range, sn, head) - 1, |cells|)
    requires step' == Around(step + Sub(c.range, sn, head), |cells|)
    ensures idx == CellOf(step', 0, |cells|)
    ensures var cells' := EmptyArc(cells, step, Sub(c.range, sn, head) - 1)[idx := Some(pkt)];
            Pushed(c, head, step, cells, sn, cells', step', pkt)
  {
    hide Around;
    var ahead := Sub(c.range, sn, head);
    AroundSuccessor(step + ahead - 1, |cells|);
    if ahead <= |cells| {
      AroundOnce(step + ahead - 1, |cells|);
    }
  }

  lemma PushOne(c: Layout, head: nat, step: nat, cells: Cells, sn: nat, cells': Cells, step': nat, pkt: Packet, s: nat)
    requires Pushed(c, head, step, cells, sn, cells', step', pkt)
    requires s < c.range && s != sn && Sub(c.range, sn, s) < |cells|
    ensures var m := Contents(c.range, head, step, cells);
            Cell(c.range, sn, step', cells', s) == if s in m then Some(m[s]) else None
  {
    var age := Sub(c.range, sn, s);
    PushIndex(step, |cells|, Sub(c.range, sn, head), CellOf(step', 0, |cells|), step', age);
    PushAge(c, head, sn, s);
  }

  /** Moving the head to `sn` over a gap: the cells of the skipped numbers are emptied, those still in
      the window keep their packets, older ones are forgotten. */
  lemma PushCell(c: Layout, head: nat, step: nat, cells: Cells, sn: nat, cells': Cells, step': nat, pkt: Packet)
    requires Pushed(c, head, step, cells, sn, cells', step', pkt)
    ensures Contents(c.range, sn, step', cells')
         == Retain(c, Contents(c.range, head, step, cells), sn, |cells|)[sn := pkt]
  {
    var m := Contents(c.range, head, step, cells);
    var m' := Contents(c.range, sn, step', cells');
    var want := Retain(c, m, sn, |cells|)[sn := pkt];
    assert Cell(c.range, sn, step', cells', sn) == Some(pkt);
    forall s: nat | s < c.range && s != sn && Sub(c.range, sn, s) < |cells|
      ensures Cell(c.range, sn, step', cells', s) == if s in m then Some(m[s]) else None
    {
      PushOne(c, head, step, cells, sn, cells', step', pkt, s);
    }
    forall s ensures s in m' <==> s in want {
    }
    assert m'.Keys == want.Keys;
  }

  /** The cells after `added` empty ones are put in at `step`: those behind the insertion move up. */
  ghost predicate Spread(cells: Cells, step: nat, added: nat, cells': Cells) {
    && step <= |cells|
    && |cells'| == |cells| + added
    && (forall i | 0 <= i < step :: cells'[i] == cells[i])
    && (forall i | step <= i < step + added :: cells'[i] == None)
    && (forall i | step + added <= i < |cells'| :: cells'[i] == cells[i - added])
  }

  function Swapped<T>(s: seq<T>, i: nat, j: nat): (r: seq<T>)
    requires i < |s| && j < |s|
  {
    s[i := s[j]][j := s[i]]
  }

  /** Moving one more cell over the gap. A full cell changes places with the empty one `added` further
      on, which may itself be the place of a cell moved before; an empty cell stays. */
  lemma SpreadDown(cells: Cells, step: nat, added: nat, cells': Cells)
    requires Spread(cells, step + 1, added, cells') && 0 < added
    ensures cells'[step] == cells[step]
    ensures cells[step] == None ==> Spread(cells, step, added, cells')
    ensures Spread(cells, step, added, Swapped(cells', step, step + added))
  {
  }

  /** Growing the ring keeps the whole map. */
  lemma SpreadKeepsContents(range: nat, head: nat, step: nat, cells: Cells, added: nat, cells': Cells)
    requires head < range && step < |cells|
    requires Spread(cells, step, added, cells')
    ensures Contents(range, head, step, cells') == Contents(range, head, step, cells)
  {
    var m, m' := Contents(range, head, step, cells), Contents(range, head, step, cells');
    forall s: nat | s < range && Sub(range, head, s) < |cells'|
      ensures s in m <==> s in m'
      ensures s in m ==> m[s] == m'[s]
    {
      var age := Sub(range, head, s);
      var k := CellOf(step, age, |cells'|);
      if age < step {
        assert k == CellOf(step, age, |cells|);
      } else if age < |cells| {
        assert k == CellOf(step, age, |cells|) + added;
      } else {
        assert step <= k < step + added;
      }
    }
    assert m.Keys == m'.Keys;
  }

  ghost predicate AllEmpty(cells: Cells) {
    forall i | 0 <= i < |cells| :: cells[i] == None
  }

  /** A ring with no packet in it stands for the empty map, wherever its head is, and only such a ring
      does. */
  lemma EmptyRing(range: nat, head: nat, step: nat, cells: Cells)
    requires head < range && step < |cells| <= range
    ensures Contents(range, head, step, cells) == map[] <==> AllEmpty(cells)
  {
    forall i | 0 <= i < |cells| && cells[i].Some?
      ensures exists sn: nat :: sn in Contents(range, head, step, cells)
    {
      var behind := if i < step then step - i - 1 else step - i - 1 + |cells|;
      var sn := Sub(range, head, behind);
      assert Sub(range, head, sn) == behind && CellOf(step, behind, |cells|) == i;
      assert sn in Contents(range, head, step, cells);
    }
  }

  /** A late packet, as judged by the cell it belongs in: the cell is its entry in the map. */
  lemma LateCell(c: Layout, w: Window, step: nat, cells: Cells, sn: nat, pkt: Packet)
    requires ValidWindow(c, w) && sn < c.range && step < |cells| == w.span
    requires w.packets == Contents(c.range, w.head, step, cells)
    requires Sub(c.range, w.head, sn) < w.span
    ensures var i := CellOf(step, Sub(c.range, w.head, sn), w.span);
            && cells[i] == (if sn in w.packets then Some(w.packets[sn]) else None)
            && (cells[i].Some? ==> Labelled(c, cells[i].value, sn))
            && Contents(c.range, w.head, step, cells[i := Some(pkt)]) == w.packets[sn := pkt]
  {
    FillCell(c.range, w.head, step, cells, sn, pkt);
    assert Cell(c.range, w.head, step, cells, sn) == cells[CellOf(step, Sub(c.range, w.head, sn), w.span)];
  }
}
