/** The VP8 helper of pkg/codec/vp8.go, which reads the descriptor field by field and writes it into a
    buffer. */
module VP8Descriptor {
  import opened Wrappers
  import opened VP8Format

  class VP8Helper {
    var firstByte: octet
    var s: bool
    var i: bool
    var m: bool
    var pictureID: bv16
    var l: bool
    var tl0PicIdx: octet
    var t: bool
    var tid: octet
    var y: bool
    var k: bool
    var keyIdx: octet
    var headerSize: nat
    var isKeyFrame: bool

    constructor ()
      ensures Fresh()
    {
      firstByte, s, i, m, pictureID, l, tl0PicIdx := 0, false, false, false, 0, false, 0;
      t, tid, y, k, keyIdx, headerSize, isKeyFrame := false, 0, false, false, 0, 0, false;
    }

    function Value(): VP8
      reads this
    {
      VP8(firstByte, Flags(i, l, t, k), Fields(m, pictureID, tl0PicIdx, tid, y, keyIdx), headerSize, isKeyFrame)
    }

    /** The zero value, as far as a payload does not always overwrite it. */
    predicate Fresh()
      reads this
    {
      Value().flags == NO_FLAGS && Value().fields == NO_FIELDS
    }

    /** Reads the picture ID from `idx` on; answers the index after it. */
    method ReadPid(payload: seq<octet>, idx: nat) returns (r: Result<nat, Error>)
      requires idx <= |payload|
      modifies `m, `pictureID
      ensures match DecodePid(payload[idx..])
              case Err(e) => r == Err(e)
              case Ok((m', pid, rest)) =>
                && r.Ok? && r.value <= |payload| && payload[r.value..] == rest
                && m == m' && pictureID == pid
    {
      if |payload| < idx + 1 {
        return Err(ShortPacket);
      }
      var pid := payload[idx] & 0x7f;
      m := payload[idx] & 0x80 > 0;
      if m {
        if |payload| < idx + 2 {
          return Err(ShortPacket);
        }
        pictureID := ((pid as bv16) << 8) | (payload[idx + 1] as bv16);
        return Ok(idx + 2);
      }
      pictureID := pid as bv16;
      return Ok(idx + 1);
    }

    /** Reads the byte that T and K share. */
    method ReadTk(payload: seq<octet>, idx: nat) returns (r: Result<nat, Error>)
      requires t || k
      modifies `tid, `y, `keyIdx
      ensures idx >= |payload| ==> r == Err(ShortPacket)
      ensures idx < |payload| ==> r == Ok(idx + 1)
      ensures idx < |payload| ==>
        var (tid', y', keyIdx') := DecodeTk(t, k, payload[idx]);
        && tid == (if t then tid' else old(tid)) && y == (if t then y' else old(y))
        && keyIdx == if k then keyIdx' else old(keyIdx)
    {
      if |payload| < idx + 1 {
        return Err(ShortPacket);
      }
      if t {
        tid := (payload[idx] & 0xc0) >> 6;
        y := payload[idx] & 0x20 > 0;
      }
      if k {
        keyIdx := payload[idx] & 0x1f;
      }
      return Ok(idx + 1);
    }

    /** Reads the fields before that byte. */
    method ReadFront(payload: seq<octet>, start: nat) returns (r: Result<nat, Error>)
      requires start <= |payload|
      modifies `m, `pictureID, `tl0PicIdx
      ensures match DecodeFront(Value().flags, payload[start..])
              case Err(e) => r == Err(e)
              case Ok((m', pid, tl0, rest)) =>
                && r.Ok? && r.value <= |payload| && payload[r.value..] == rest
                && m == (if i then m' else old(m)) && pictureID == (if i then pid else old(pictureID))
                && tl0PicIdx == if l then tl0 else old(tl0PicIdx)
    {
      hide DecodePid;
      var idx := start;
      if i {
        var p := ReadPid(payload, idx);
        if p.Err? {
          return Err(p.error);
        }
        idx := p.value;
      }
      if l {
        if |payload| < idx + 1 {
          return Err(ShortPacket);
        }
        tl0PicIdx := payload[idx];
        idx := idx + 1;
      }
      return Ok(idx);
    }

    /** Reads the optional fields that the flags announce. */
    method ReadFields(payload: seq<octet>, start: nat) returns (r: Result<nat, Error>)
      requires start <= |payload|
      modifies `m, `pictureID, `tl0PicIdx, `tid, `y, `keyIdx
      ensures match DecodeFields(Value().flags, payload[start..])
              case Err(e) => r == Err(e)
              case Ok((v, rest)) =>
                && r.Ok? && r.value <= |payload| && payload[r.value..] == rest
                && Value().fields == Over(Value().flags, old(Value().fields), v)
    {
      hide DecodeFront, DecodeTk;
      r := ReadFront(payload, start);
      if r.Ok? && (t || k) {
        r := ReadTk(payload, r.value);
      }
    }

    /** Reads the flags at index 1, and the fields behind them; answers the index after these. */
    method ReadExtension(p: seq<octet>) returns (r: Result<nat, Error>)
      requires |p| >= 1
      modifies `i, `l, `t, `k, `m, `pictureID, `tl0PicIdx, `tid, `y, `keyIdx
      ensures match DecodeExtension(p[1..])
              case Err(e) => r == Err(e)
              case Ok((f, v, rest)) =>
                && r.Ok? && r.value <= |p| && p[r.value..] == rest
                && Value().flags == f && Value().fields == Over(f, old(Value().fields), v)
    {
      hide DecodeFields;
      if |p| < 2 {
        return Err(ShortPacket);
      }
      i := p[1] & 0x80 > 0;
      l := p[1] & 0x40 > 0;
      t := p[1] & 0x20 > 0;
      k := p[1] & 0x10 > 0;
      if l && !t {
        return Err(InvalidPacket);
      }
      assert p[1..][1..] == p[2..];
      r := ReadFields(p, 2);
    }

    /** Parses a payload; `None` stands for a nil slice. */
    method Unmarshal(payload: Option<seq<octet>>) returns (err: Option<Error>)
      modifies this
      ensures payload.None? ==> err == Some(NilPacket)
      ensures payload.Some? ==> match DecodeOver(old(Value()), payload.value)
                                case Err(e) => err == Some(e)
                                case Ok(v) => err == None && Value() == v
      ensures payload.Some? && old(Fresh()) ==> DecodeOver(old(Value()), payload.value) == Decode(payload.value)
      ensures err == None ==> s == Start(firstByte)
    {
      hide DecodeExtension, Over;
      if payload.None? {
        return Some(NilPacket);
      }
      var p := payload.value;
      ghost var was := Value();
      if Fresh() {
        FreshOver(was, p);
      }
      if |p| < 1 {
        return Some(ShortPacket);
      }
      var idx := 1;
      firstByte := p[0];
      s := p[0] & 0x10 > 0;
      if p[0] & 0x80 > 0 {
        var f := ReadExtension(p);
        if f.Err? {
          return Some(f.error);
        }
        idx := f.value;
      }
      if |p| < idx + 1 {
        return Some(ShortPacket);
      }
      // the P bit of the frame that follows the descriptor
      isKeyFrame := p[idx] & 0x01 == 0 && s;
      headerSize := idx;
      return None;
    }

    method MarshalPid(buf: array<octet>, start: nat) returns (end: nat)
      requires start + |PidPart(i, m, pictureID)| <= buf.Length
      modifies buf
      ensures end == start + |PidPart(i, m, pictureID)|
      ensures buf[..] == Spliced(old(buf[..]), start, PidPart(i, m, pictureID))
    {
      hide PidBytes, Spliced;
      SplicedNothing(buf[..], start);
      end := start;
      if i {
        end := Put(buf, start, PidBytes(m, pictureID));
      }
    }

    method MarshalTl0(buf: array<octet>, start: nat) returns (end: nat)
      requires start + |Tl0Part(l, tl0PicIdx)| <= buf.Length
      modifies buf
      ensures end == start + |Tl0Part(l, tl0PicIdx)|
      ensures buf[..] == Spliced(old(buf[..]), start, Tl0Part(l, tl0PicIdx))
    {
      hide Spliced;
      SplicedNothing(buf[..], start);
      end := start;
      if l {
        end := Put(buf, start, [tl0PicIdx]);
      }
    }

    method MarshalTk(buf: array<octet>, start: nat) returns (end: nat)
      requires start + |TkPart(t, k, tid, y, keyIdx)| <= buf.Length
      modifies buf
      ensures end == start + |TkPart(t, k, tid, y, keyIdx)|
      ensures buf[..] == Spliced(old(buf[..]), start, TkPart(t, k, tid, y, keyIdx))
    {
      hide Spliced, TkByte;
      SplicedNothing(buf[..], start);
      end := start;
      if t || k {
        end := Put(buf, start, [TkByte(t, k, tid, y, keyIdx)]);
      }
    }

    /** Writes the optional fields that the flags announce. */
    method MarshalFields(buf: array<octet>, start: nat) returns (end: nat)
      requires start + |FieldsBytes(Value().flags, Value().fields)| <= buf.Length
      modifies buf
      ensures end == start + |FieldsBytes(Value().flags, Value().fields)|
      ensures buf[..] == Spliced(old(buf[..]), start, FieldsBytes(Value().flags, Value().fields))
    {
      hide PidPart, Tl0Part, TkPart, Spliced;
      ghost var pid, tl0 := PidPart(i, m, pictureID), Tl0Part(l, tl0PicIdx);
      SplicedTwice(buf[..], start, pid, tl0);
      SplicedTwice(buf[..], start, pid + tl0, TkPart(t, k, tid, y, keyIdx));
      end := MarshalPid(buf, start);
      end := MarshalTl0(buf, end);
      end := MarshalTk(buf, end);
    }

    /** Writes the descriptor at the start of `buf`. A buffer that is shorter than the header was on
        reading is refused; any other has to have room for what is written. */
    method MarshalTo(buf: array<octet>) returns (r: Result<nat, Error>)
      requires buf.Length < headerSize || |Encode(Value())| <= buf.Length
      modifies buf
      ensures r == if buf.Length < headerSize then Err(ShortPacket) else Ok(|Encode(Value())|)
      ensures r.Err? ==> buf[..] == old(buf[..])
      ensures r.Ok? ==> buf[..] == Spliced(old(buf[..]), 0, Encode(Value()))
    {
      hide FieldsBytes, Encode, HeadBytes, Spliced;
      if buf.Length < headerSize {
        return Err(ShortPacket);
      }
      ghost var v := Value();
      WrittenInTwo(v, buf[..]);
      if i || l || t || k {
        var idx := MarshalHead(buf);
        idx := MarshalFields(buf, idx);
        return Ok(idx);
      }
      var idx := MarshalHead(buf);
      return Ok(idx);
    }

    /** Writes the first byte, with the bit that announces an extension, and the flags if there is one. */
    method MarshalHead(buf: array<octet>) returns (end: nat)
      requires |HeadBytes(Value())| <= buf.Length
      modifies buf
      ensures end == |HeadBytes(Value())| && buf[..] == Spliced(old(buf[..]), 0, HeadBytes(Value()))
    {
      hide FlagsByte, Spliced;
      if i || l || t || k {
        end := Put(buf, 0, [firstByte | 0x80] + [FlagsByte(Flags(i, l, t, k))]);
      } else {
        end := Put(buf, 0, [firstByte & 0x7f]);
      }
    }

    /** A buffer of eight bytes holds any descriptor. */
    method Marshal() returns (r: Result<seq<octet>, Error>)
      ensures r == if 8 < headerSize then Err(ShortPacket) else Ok(Encode(Value()))
    {
      var buf := new octet[8](_ => 0);
      ghost var v := Value();
      var n := MarshalTo(buf);
      if n.Err? {
        return Err(n.error);
      }
      assert Value() == v && buf[..n.value] == Encode(v);
      return Ok(buf[..n.value]);
    }
  }

  /** A buffer after some bytes were written at an index. */
  ghost function Spliced(s: seq<octet>, idx: nat, bytes: seq<octet>): (r: seq<octet>)
    requires idx + |bytes| <= |s|
    ensures |r| == |s|
  {
    s[..idx] + bytes + s[idx + |bytes|..]
  }

  lemma SplicedNothing(s: seq<octet>, idx: nat)
    requires idx <= |s|
    ensures Spliced(s, idx, []) == s
  {
  }

  lemma SplicedTwice(s: seq<octet>, idx: nat, a: seq<octet>, b: seq<octet>)
    requires idx + |a| + |b| <= |s|
    ensures Spliced(Spliced(s, idx, a), idx + |a|, b) == Spliced(s, idx, a + b)
  {
  }

  lemma WrittenInTwo(v: VP8, s: seq<octet>)
    requires |Encode(v)| <= |s|
    ensures v.flags == NO_FLAGS ==> Encode(v) == HeadBytes(v)
    ensures v.flags != NO_FLAGS ==>
      && |Encode(v)| == |HeadBytes(v)| + |FieldsBytes(v.flags, v.fields)|
      && Spliced(Spliced(s, 0, HeadBytes(v)), |HeadBytes(v)|, FieldsBytes(v.flags, v.fields))
         == Spliced(s, 0, Encode(v))
  {
    hide HeadBytes, FieldsBytes, Spliced;
    if v.flags != NO_FLAGS {
      SplicedTwice(s, 0, HeadBytes(v), FieldsBytes(v.flags, v.fields));
    }
  }

  method Put(buf: array<octet>, idx: nat, bytes: seq<octet>) returns (end: nat)
    requires idx + |bytes| <= buf.Length
    modifies buf
    ensures end == idx + |bytes|
    ensures buf[..] == Spliced(old(buf[..]), idx, bytes)
  {
    forall j | 0 <= j < |bytes| {
      buf[idx + j] := bytes[j];
    }
    end := idx + |bytes|;
  }
}
