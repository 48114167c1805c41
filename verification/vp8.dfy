/** The VP8 payload descriptor of section 4.2 of RFC 7741, part by part: what it decodes to, and how
    pkg/codec/vp8.go writes it. */
module VP8Format {
  import opened Wrappers

  type octet = bv8

  datatype Error = ShortPacket | NilPacket | InvalidPacket

  /** The I, L, T and K bits. */
  datatype Flags = Flags(i: bool, l: bool, t: bool, k: bool)

  const NO_FLAGS := Flags(false, false, false, false)

  /** The optional fields; those that are absent are 0. */
  datatype Fields = Fields(m: bool, pictureID: bv16, tl0PicIdx: octet, tid: octet, y: bool, keyIdx: octet)

  const NO_FIELDS := Fields(false, 0, 0, 0, false, 0)

  datatype VP8 = VP8(firstByte: octet, flags: Flags, fields: Fields, headerSize: nat, isKeyFrame: bool)

  predicate Start(firstByte: octet) {
    firstByte & 0x10 != 0
  }

  function FlagsOf(x: octet): Flags {
    Flags(x & 0x80 != 0, x & 0x40 != 0, x & 0x20 != 0, x & 0x10 != 0)
  }

  function FlagsByte(f: Flags): octet {
    (if f.i then 0x80 else 0) | (if f.l then 0x40 else 0) | (if f.t then 0x20 else 0) | (if f.k then 0x10 else 0)
  }

  /** A 7-bit picture ID in one byte, or a 15-bit one in two. */
  function DecodePid(s: seq<octet>): Result<(bool, bv16, seq<octet>), Error> {
    if |s| < 1 then Err(ShortPacket)
    else if s[0] & 0x80 == 0 then Ok((false, (s[0] & 0x7f) as bv16, s[1..]))
    else if |s| < 2 then Err(ShortPacket)
    else Ok((true, (((s[0] & 0x7f) as bv16) << 8) | (s[1] as bv16), s[2..]))
  }

  function PidBytes(m: bool, pid: bv16): seq<octet> {
    if m then [0x80 | (((pid >> 8) & 0x7f) as octet), (pid & 0xff) as octet] else [(pid & 0xff) as octet]
  }

  function DecodeTk(t: bool, k: bool, b: octet): (octet, bool, octet) {
    (if t then (b & 0xc0) >> 6 else 0, t && b & 0x20 != 0, if k then b & 0x1f else 0)
  }

  function TkByte(t: bool, k: bool, tid: octet, y: bool, keyIdx: octet): octet {
    (if t then (tid << 6) | (if y then 0x20 else 0) else 0) | (if k then keyIdx & 0x1f else 0)
  }

  /** The fields before the one that T and K share. */
  function DecodeFront(f: Flags, s: seq<octet>): Result<(bool, bv16, octet, seq<octet>), Error> {
    var (m, pid, s) :- if f.i then DecodePid(s) else Ok((false, 0, s));
    if f.l && |s| < 1 then Err(ShortPacket)
    else
      var (tl0, s) := if f.l then (s[0], s[1..]) else (0, s);
      Ok((m, pid, tl0, s))
  }

  /** The optional fields, and what follows them. */
  function DecodeFields(f: Flags, s: seq<octet>): Result<(Fields, seq<octet>), Error> {
    var (m, pid, tl0, s) :- DecodeFront(f, s);
    if (f.t || f.k) && |s| < 1 then Err(ShortPacket)
    else
      var ((tid, y, keyIdx), s) := if f.t || f.k then (DecodeTk(f.t, f.k, s[0]), s[1..]) else ((0, false, 0), s);
      Ok((Fields(m, pid, tl0, tid, y, keyIdx), s))
  }

  function PidPart(i: bool, m: bool, pid: bv16): seq<octet> {
    if i then PidBytes(m, pid) else []
  }

  function Tl0Part(l: bool, tl0PicIdx: octet): seq<octet> {
    if l then [tl0PicIdx] else []
  }

  function TkPart(t: bool, k: bool, tid: octet, y: bool, keyIdx: octet): seq<octet> {
    if t || k then [TkByte(t, k, tid, y, keyIdx)] else []
  }

  function FrontBytes(f: Flags, v: Fields): seq<octet> {
    PidPart(f.i, v.m, v.pictureID) + Tl0Part(f.l, v.tl0PicIdx)
  }

  function FieldsBytes(f: Flags, v: Fields): seq<octet> {
    FrontBytes(f, v) + TkPart(f.t, f.k, v.tid, v.y, v.keyIdx)
  }

  /** The flags and the fields of an extended descriptor, and what follows them. */
  function DecodeExtension(s: seq<octet>): Result<(Flags, Fields, seq<octet>), Error> {
    if |s| < 1 then Err(ShortPacket)
    else
      var f := FlagsOf(s[0]);
      if f.l && !f.t then Err(InvalidPacket)
      else
        var (v, s) :- DecodeFields(f, s[1..]);
        Ok((f, v, s))
  }

  /** What a fresh descriptor holds after a payload. */
  function Decode(payload: seq<octet>): Result<VP8, Error> {
    if |payload| < 1 then Err(ShortPacket)
    else
      var (f, v, s) :- if payload[0] & 0x80 != 0 then DecodeExtension(payload[1..])
                       else Ok((NO_FLAGS, NO_FIELDS, payload[1..]));
      if |s| < 1 then Err(ShortPacket)
      else Ok(VP8(payload[0], f, v, |payload| - |s|, s[0] & 0x01 == 0 && Start(payload[0])))
  }

  /** Fields that a payload has, and the old ones for those that it lacks. */
  function Over(f: Flags, old': Fields, v: Fields): Fields {
    Fields(if f.i then v.m else old'.m, if f.i then v.pictureID else old'.pictureID,
           if f.l then v.tl0PicIdx else old'.tl0PicIdx,
           if f.t then v.tid else old'.tid, if f.t then v.y else old'.y,
           if f.k then v.keyIdx else old'.keyIdx)
  }

  /** What a descriptor holds after a payload, when it held `old'` before. */
  function DecodeOver(old': VP8, payload: seq<octet>): Result<VP8, Error> {
    var v :- Decode(payload);
    if payload[0] & 0x80 != 0 then Ok(v.(fields := Over(v.flags, old'.fields, v.fields)))
    else Ok(v.(flags := old'.flags, fields := old'.fields))
  }

  lemma FreshOver(old': VP8, payload: seq<octet>)
    requires old'.flags == NO_FLAGS && old'.fields == NO_FIELDS
    ensures DecodeOver(old', payload) == Decode(payload)
  {
    if Decode(payload).Ok? {
      hide Decode, FieldsBytes, FlagsOf, Start, DecodeFields;
      Accepted(payload);
      var v := Decode(payload).value;
      OnlyFields(v.flags, v.fields);
      FlaglessFields(v.fields);
    }
  }

  lemma OnlyFields(f: Flags, v: Fields)
    requires ValidFields(f, v)
    ensures Over(f, NO_FIELDS, v) == v
  {
  }

  /** How a descriptor is written: the extension is there when a flag is. */
  function Encode(v: VP8): seq<octet> {
    if v.flags == NO_FLAGS then HeadBytes(v) else HeadBytes(v) + FieldsBytes(v.flags, v.fields)
  }

  function HeadBytes(v: VP8): seq<octet> {
    if v.flags == NO_FLAGS then [v.firstByte & 0x7f] else [v.firstByte | 0x80] + [FlagsByte(v.flags)]
  }

  // Bytes and what they stand for.

  lemma FlagsRoundTrip(f: Flags)
    ensures FlagsOf(FlagsByte(f)) == f
  {
  }

  lemma FlagsByteIff(x: octet)
    ensures FlagsByte(FlagsOf(x)) == x <==> x & 0x0f == 0
  {
  }

  predicate ValidPid(m: bool, pid: bv16) {
    pid < if m then 0x8000 else 0x80
  }

  lemma PidRoundTrip(m: bool, pid: bv16, s: seq<octet>)
    requires ValidPid(m, pid)
    ensures DecodePid(PidBytes(m, pid) + s) == Ok((m, pid, s))
  {
    var t := PidBytes(m, pid) + s;
    assert t[|PidBytes(m, pid)|..] == s;
  }

  lemma DecodedPid(s: seq<octet>)
    requires DecodePid(s).Ok?
    ensures var (m, pid, rest) := DecodePid(s).value;
            ValidPid(m, pid) && PidBytes(m, pid) + rest == s
  {
  }

  predicate ValidTk(t: bool, k: bool, tid: octet, y: bool, keyIdx: octet) {
    tid < 4 && keyIdx < 32 && (!t ==> tid == 0 && !y) && (!k ==> keyIdx == 0)
  }

  lemma TkRoundTrip(t: bool, k: bool, tid: octet, y: bool, keyIdx: octet)
    requires ValidTk(t, k, tid, y, keyIdx)
    ensures DecodeTk(t, k, TkByte(t, k, tid, y, keyIdx)) == (tid, y, keyIdx)
  {
  }

  lemma DecodedTk(t: bool, k: bool, b: octet)
    ensures var (tid, y, keyIdx) := DecodeTk(t, k, b);
            && ValidTk(t, k, tid, y, keyIdx)
            && (TkByte(t, k, tid, y, keyIdx) == b <==> CanonicalTk(t, k, b))
  {
  }

  /** No bit is set that the flags do not announce. */
  predicate CanonicalTk(t: bool, k: bool, b: octet) {
    (!t ==> b & 0xe0 == 0) && (!k ==> b & 0x1f == 0)
  }

  predicate ValidFields(f: Flags, v: Fields) {
    && (if f.i then ValidPid(v.m, v.pictureID) else !v.m && v.pictureID == 0)
    && (!f.l ==> v.tl0PicIdx == 0)
    && ValidTk(f.t, f.k, v.tid, v.y, v.keyIdx)
  }

  lemma FrontRoundTrip(f: Flags, v: Fields, s: seq<octet>)
    requires if f.i then ValidPid(v.m, v.pictureID) else !v.m && v.pictureID == 0
    requires !f.l ==> v.tl0PicIdx == 0
    ensures DecodeFront(f, PidPart(f.i, v.m, v.pictureID) + (Tl0Part(f.l, v.tl0PicIdx) + s))
         == Ok((v.m, v.pictureID, v.tl0PicIdx, s))
  {
    hide DecodePid, PidBytes, ValidPid;
    var tl := Tl0Part(f.l, v.tl0PicIdx);
    if f.i {
      PidRoundTrip(v.m, v.pictureID, tl + s);
    }
    Behind(tl, s);
    Behind([], tl + s);
  }

  lemma Behind(a: seq<octet>, b: seq<octet>)
    ensures (a + b)[|a|..] == b && [] + b == b
  {
  }

  lemma FieldsRoundTrip(f: Flags, v: Fields, s: seq<octet>)
    requires ValidFields(f, v)
    ensures DecodeFields(f, FieldsBytes(f, v) + s) == Ok((v, s))
  {
    hide DecodeFront, PidPart, Tl0Part, DecodeTk, TkByte, ValidPid, ValidTk;
    var tk := TkPart(f.t, f.k, v.tid, v.y, v.keyIdx);
    var tl, pid := Tl0Part(f.l, v.tl0PicIdx), PidPart(f.i, v.m, v.pictureID);
    Joined(pid, tl, tk + s);
    Joined(pid + tl, tk, s);
    FrontRoundTrip(f, v, tk + s);
    Behind(tk, s);
    TkRoundTrip(f.t, f.k, v.tid, v.y, v.keyIdx);
    NoTk(v.tid, v.y, v.keyIdx);
  }

  lemma NoTk(tid: octet, y: bool, keyIdx: octet)
    ensures ValidTk(false, false, tid, y, keyIdx) ==> tid == 0 && !y && keyIdx == 0
  {
  }

  lemma DecodedFront(f: Flags, s: seq<octet>)
    requires DecodeFront(f, s).Ok?
    ensures var (m, pid, tl0, rest) := DecodeFront(f, s).value;
            && (if f.i then ValidPid(m, pid) else !m && pid == 0)
            && (!f.l ==> tl0 == 0)
            && s == PidPart(f.i, m, pid) + (Tl0Part(f.l, tl0) + rest)
  {
    hide DecodePid, PidBytes, ValidPid;
    if f.i {
      DecodedPid(s);
    }
  }

  /** Decoded fields are valid; and they are written back as they came exactly when the last of their
      bytes is canonical. */
  lemma DecodedFields(f: Flags, s: seq<octet>)
    requires DecodeFields(f, s).Ok?
    ensures var (v, rest) := DecodeFields(f, s).value;
            && ValidFields(f, v)
            && |FieldsBytes(f, v)| + |rest| == |s|
            && (FieldsBytes(f, v) + rest == s <==>
                  (f.t || f.k ==> |s| > |rest| && CanonicalTk(f.t, f.k, s[|s| - |rest| - 1])))
  {
    hide DecodeFront, PidPart, Tl0Part, DecodeTk, TkByte, ValidPid, ValidTk, CanonicalTk;
    DecodedFront(f, s);
    var (v, rest) := DecodeFields(f, s).value;
    var front, after := FrontBytes(f, v), DecodeFront(f, s).value.3;
    NoTkValid();
    Joined(PidPart(f.i, v.m, v.pictureID), Tl0Part(f.l, v.tl0PicIdx), after);
    if f.t || f.k {
      DecodedTk(f.t, f.k, after[0]);
      OneByteOff(front, after, rest);
      LastByteDecides(front, after[0], TkByte(f.t, f.k, v.tid, v.y, v.keyIdx), rest);
    } else {
      assert FieldsBytes(f, v) == front;
    }
  }

  lemma Joined(a: seq<octet>, b: seq<octet>, c: seq<octet>)
    ensures a + (b + c) == a + b + c
  {
  }

  lemma OneByteOff(front: seq<octet>, s: seq<octet>, rest: seq<octet>)
    requires s != [] && rest == s[1..]
    ensures front + s == front + [s[0]] + rest
  {
    assert s == [s[0]] + rest;
  }

  lemma LastByteDecides(front: seq<octet>, x: octet, b: octet, rest: seq<octet>)
    ensures front + [b] + rest == front + [x] + rest <==> b == x
    ensures (front + [x] + rest)[|front|] == x
  {
    assert (front + [b] + rest)[|front|] == b;
  }

  lemma NoTkValid()
    ensures ValidTk(false, false, 0, false, 0)
  {
  }

  /** Everything but the size of the header and the bit that announces an extension. */
  predicate SameContent(v: VP8, w: VP8) {
    v.flags == w.flags && v.fields == w.fields && v.isKeyFrame == w.isKeyFrame
    && v.firstByte & 0x7f == w.firstByte & 0x7f
  }

  lemma FirstByteBits(b: octet)
    ensures (b | 0x80) & 0x80 != 0 && (b & 0x7f) & 0x80 == 0
    ensures (b | 0x80) & 0x7f == b & 0x7f && (b & 0x7f) & 0x7f == b & 0x7f
    ensures Start(b | 0x80) == Start(b) == Start(b & 0x7f)
    ensures b & 0x80 != 0 ==> b | 0x80 == b
    ensures b & 0x80 == 0 ==> b & 0x7f == b
    ensures b & 0x80 != 0 ==> b & 0x7f != b
  {
  }

  /** What is known of a payload that was accepted. */
  lemma Accepted(payload: seq<octet>)
    requires Decode(payload).Ok?
    ensures var v := Decode(payload).value;
            && 1 <= v.headerSize < |payload| && v.firstByte == payload[0]
            && v.isKeyFrame == (payload[v.headerSize] & 0x01 == 0 && Start(payload[0]))
            && ValidFields(v.flags, v.fields) && (v.flags.l ==> v.flags.t)
            && (payload[0] & 0x80 == 0 ==> v.headerSize == 1 && v.flags == NO_FLAGS)
            && (payload[0] & 0x80 != 0 ==>
                  && v.headerSize == 2 + |FieldsBytes(v.flags, v.fields)| <= 6
                  && v.flags == FlagsOf(payload[1])
                  && DecodeFields(v.flags, payload[2..]) == Ok((v.fields, payload[v.headerSize..])))
  {
    hide DecodeFields, FlagsOf, Start, FieldsBytes, ValidFields;
    if payload[0] & 0x80 != 0 {
      var f := FlagsOf(payload[1]);
      DecodedFields(f, payload[2..]);
      var (v, rest) := DecodeFields(f, payload[2..]).value;
      assert payload[1..][1..] == payload[2..];
      FieldsSize(f, v, rest, payload[2..]);
      assert rest == payload[|payload| - |rest|..];
    } else {
      NoFieldsValid();
    }
  }

  lemma FieldsSize(f: Flags, v: Fields, rest: seq<octet>, s: seq<octet>)
    requires DecodeFields(f, s) == Ok((v, rest))
    ensures |FieldsBytes(f, v)| <= 4 && |rest| <= |s| && rest == s[|s| - |rest|..]
  {
    hide DecodeTk, TkByte;
  }

  lemma NoFieldsValid()
    ensures ValidFields(NO_FLAGS, NO_FIELDS)
  {
  }

  /** Decoding what was written for an accepted payload gives the same descriptor; its header is as long
      as before, except that an extension without any flag is dropped. */
  lemma MarshalRoundTrip(payload: seq<octet>)
    requires Decode(payload).Ok?
    ensures var v := Decode(payload).value;
            var r := Decode(Encode(v) + payload[v.headerSize..]);
            && r.Ok? && SameContent(r.value, v)
            && r.value.headerSize == |Encode(v)|
            && |Encode(v)| == if payload[0] & 0x80 != 0 && v.flags == NO_FLAGS then v.headerSize - 1 else v.headerSize
  {
    hide DecodeFields, FlagsOf, FlagsByte, Start, ValidFields, SameContent;
    var v := Decode(payload).value;
    Accepted(payload);
    if v.flags != NO_FLAGS {
      ExtendedRoundTrip(v, payload[v.headerSize..]);
    } else {
      FlaglessFields(v.fields);
      PlainRoundTrip(v, payload[v.headerSize..]);
    }
  }

  lemma ExtensionRoundTrip(f: Flags, v: Fields, rest: seq<octet>)
    requires ValidFields(f, v) && (f.l ==> f.t)
    ensures DecodeExtension([FlagsByte(f)] + (FieldsBytes(f, v) + rest)) == Ok((f, v, rest))
  {
    hide DecodeFields, FlagsOf, FlagsByte, FieldsBytes, ValidFields;
    FlagsRoundTrip(f);
    FieldsRoundTrip(f, v, rest);
    Behind([FlagsByte(f)], FieldsBytes(f, v) + rest);
  }

  lemma ExtendedRoundTrip(v: VP8, rest: seq<octet>)
    requires v.flags != NO_FLAGS && ValidFields(v.flags, v.fields) && (v.flags.l ==> v.flags.t)
    requires rest != [] && v.isKeyFrame == (rest[0] & 0x01 == 0 && Start(v.firstByte))
    ensures |Encode(v)| == 2 + |FieldsBytes(v.flags, v.fields)|
    ensures var r := Decode(Encode(v) + rest);
            r.Ok? && SameContent(r.value, v) && r.value.headerSize == |Encode(v)|
  {
    hide DecodeExtension, FlagsByte, Start, FieldsBytes, ValidFields;
    FirstByteBits(v.firstByte);
    ExtensionRoundTrip(v.flags, v.fields, rest);
    var ext := [FlagsByte(v.flags)] + (FieldsBytes(v.flags, v.fields) + rest);
    assert Encode(v) + rest == [v.firstByte | 0x80] + ext;
    Behind([v.firstByte | 0x80], ext);
  }

  lemma PlainRoundTrip(v: VP8, rest: seq<octet>)
    requires v.flags == NO_FLAGS && v.fields == NO_FIELDS
    requires rest != [] && v.isKeyFrame == (rest[0] & 0x01 == 0 && Start(v.firstByte))
    ensures |Encode(v)| == 1
    ensures var r := Decode(Encode(v) + rest);
            r.Ok? && SameContent(r.value, v) && r.value.headerSize == 1
  {
    hide DecodeExtension, Start;
    FirstByteBits(v.firstByte);
    assert (Encode(v) + rest)[1..] == rest;
  }

  lemma FlaglessFields(v: Fields)
    ensures ValidFields(NO_FLAGS, v) ==> v == NO_FIELDS
  {
  }

  /** Reserved bits are 0, an extension has a flag, and no bit is set that the flags do not announce. */
  predicate Canonical(payload: seq<octet>, v: VP8)
    requires 1 <= v.headerSize < |payload|
  {
    payload[0] & 0x80 != 0 ==>
      && payload[1] & 0x0f == 0 && v.flags != NO_FLAGS
      && (v.flags.t || v.flags.k ==> CanonicalTk(v.flags.t, v.flags.k, payload[v.headerSize - 1]))
  }

  /** The header is written back byte for byte exactly when it is canonical. */
  lemma MarshalExactIff(payload: seq<octet>)
    requires Decode(payload).Ok?
    ensures var v := Decode(payload).value;
            && 1 <= v.headerSize < |payload|
            && (Encode(v) == payload[..v.headerSize] <==> Canonical(payload, v))
  {
    var v := Decode(payload).value;
    Accepted(payload);
    FirstByteBits(payload[0]);
    if payload[0] & 0x80 != 0 {
      FlagsByteIff(payload[1]);
      DecodedFields(v.flags, payload[2..]);
      ExtendedExact(payload, v);
    }
  }

  lemma ExtendedExact(payload: seq<octet>, v: VP8)
    requires |payload| > v.headerSize == 2 + |FieldsBytes(v.flags, v.fields)|
    requires payload[0] & 0x80 != 0 && v.firstByte == payload[0] && v.firstByte | 0x80 == v.firstByte
    requires v.firstByte & 0x7f != v.firstByte
    requires v.flags == FlagsOf(payload[1]) && (FlagsByte(v.flags) == payload[1] <==> payload[1] & 0x0f == 0)
    requires FieldsBytes(v.flags, v.fields) + payload[v.headerSize..] == payload[2..] <==>
      (v.flags.t || v.flags.k ==> v.headerSize > 2 && CanonicalTk(v.flags.t, v.flags.k, payload[v.headerSize - 1]))
    requires v.flags.t || v.flags.k ==> v.headerSize > 2
    ensures Encode(v) == payload[..v.headerSize] <==> Canonical(payload, v)
  {
    hide FlagsOf, FlagsByte, FieldsBytes, CanonicalTk;
    var fields := FieldsBytes(v.flags, v.fields);
    assert payload[2..] == payload[2..v.headerSize] + payload[v.headerSize..];
    assert fields + payload[v.headerSize..] == payload[2..] <==> fields == payload[2..v.headerSize] by {
      if fields + payload[v.headerSize..] == payload[2..] {
        assert (fields + payload[v.headerSize..])[..|fields|] == fields;
        assert payload[2..][..|fields|] == payload[2..v.headerSize];
      }
    }
    var written := [v.firstByte] + [FlagsByte(v.flags)] + fields;
    assert written == payload[..v.headerSize] <==>
      FlagsByte(v.flags) == payload[1] && fields == payload[2..v.headerSize] by {
      assert payload[..v.headerSize] == [payload[0]] + [payload[1]] + payload[2..v.headerSize];
      assert written[1] == FlagsByte(v.flags) && written[2..] == fields;
      assert payload[..v.headerSize][2..] == payload[2..v.headerSize];
    }
  }

  // Where everything is, bit by bit.

  /** Bit `n` of a byte, the lowest one being bit 0. */
  predicate BitOf(b: octet, n: nat)
    requires n < 8
  {
    (b >> n) & 1 == 1
  }

  /** The descriptor of section 4.2 of RFC 7741: X and S are bits 7 and 4 of the first byte, I, L, T and K bits 7
      to 4 of the second; a key frame has S set and bit 0 of its first byte clear. */
  lemma HeadLayout(payload: seq<octet>)
    requires Decode(payload).Ok?
    ensures var v := Decode(payload).value;
            && v.firstByte == payload[0] && 1 <= v.headerSize < |payload|
            && v.isKeyFrame == (BitOf(payload[0], 4) && !BitOf(payload[v.headerSize], 0))
            && (!BitOf(payload[0], 7) ==> v.headerSize == 1 && v.flags == Flags(false, false, false, false))
            && (BitOf(payload[0], 7) ==>
                  && |payload| > 2
                  && v.flags == Flags(BitOf(payload[1], 7), BitOf(payload[1], 6),
                                      BitOf(payload[1], 5), BitOf(payload[1], 4)))
  {
    hide Decode, DecodeFields, FieldsBytes, ValidFields;
    Accepted(payload);
    TestedBits(payload[0]);
    TestedBits(payload[Decode(payload).value.headerSize]);
    if BitOf(payload[0], 7) {
      TestedBits(payload[1]);
    }
  }

  lemma TestedBits(b: octet)
    ensures BitOf(b, 7) == (b & 0x80 != 0) && BitOf(b, 6) == (b & 0x40 != 0)
    ensures BitOf(b, 5) == (b & 0x20 != 0) && BitOf(b, 4) == (b & 0x10 != 0) && BitOf(b, 0) == (b & 0x01 != 0)
  {
  }

  /** How many bytes the picture ID takes, if it is there. */
  function PidSize(f: Flags, s: seq<octet>): nat {
    if !f.i then 0 else if |s| > 0 && BitOf(s[0], 7) then 2 else 1
  }

  function Tl0Size(f: Flags): nat {
    if f.l then 1 else 0
  }

  function TkSize(f: Flags): nat {
    if f.t || f.k then 1 else 0
  }

  /** The fields follow each other in this order: a picture ID of 7 or, with its top bit set, 15 bits; the
      temporal level zero index; a byte of two bits, one and five. They are read exactly if they are all there. */
  lemma FieldsLayout(f: Flags, s: seq<octet>)
    ensures var p := PidSize(f, s);
            var q := p + Tl0Size(f);
            && (DecodeFields(f, s).Err? ==> DecodeFields(f, s) == Err(ShortPacket))
            && (DecodeFields(f, s).Ok? <==> q + TkSize(f) <= |s|)
            && (DecodeFields(f, s).Ok? ==> var (v, rest) := DecodeFields(f, s).value;
                  && rest == s[q + TkSize(f)..]
                  && (f.i ==> v.m == BitOf(s[0], 7)
                              && v.pictureID == if v.m then ((s[0] - 0x80) as bv16) * 0x100 + s[1] as bv16
                                                else s[0] as bv16)
                  && (f.l ==> v.tl0PicIdx == s[p])
                  && (f.t ==> v.tid == s[q] >> 6 && v.y == BitOf(s[q], 5))
                  && (f.k ==> v.keyIdx == s[q] % 32))
  {
    hide DecodePid, DecodeTk, DecodeFront, BitOf, PidSize, Tl0Size;
    FrontLayout(f, s);
    var q := PidSize(f, s) + Tl0Size(f);
    if q < |s| {
      TkLayout(f.t, f.k, s[q]);
      assert s[q..][0] == s[q] && s[q..][1..] == s[q + 1..];
    }
  }

  lemma FrontLayout(f: Flags, s: seq<octet>)
    ensures var p := PidSize(f, s);
            && (DecodeFront(f, s).Err? ==> DecodeFront(f, s) == Err(ShortPacket))
            && (DecodeFront(f, s).Ok? <==> p + Tl0Size(f) <= |s|)
            && (DecodeFront(f, s).Ok? ==> var (m, pid, tl0, rest) := DecodeFront(f, s).value;
                  && rest == s[p + Tl0Size(f)..]
                  && (f.i ==> m == BitOf(s[0], 7)
                              && pid == if m then ((s[0] - 0x80) as bv16) * 0x100 + s[1] as bv16 else s[0] as bv16)
                  && (f.l ==> tl0 == s[p]))
  {
    hide DecodePid, BitOf;
    if f.i {
      PidLayout(s);
    }
  }

  lemma PidLayout(s: seq<octet>)
    ensures DecodePid(s).Err? ==> DecodePid(s) == Err(ShortPacket)
    ensures DecodePid(s).Ok? <==> |s| >= 1 && (BitOf(s[0], 7) ==> |s| >= 2)
    ensures DecodePid(s).Ok? ==> var (m, pid, rest) := DecodePid(s).value;
      && m == BitOf(s[0], 7) && rest == s[if m then 2 else 1..]
      && pid == if m then ((s[0] - 0x80) as bv16) * 0x100 + s[1] as bv16 else s[0] as bv16
  {
    if |s| >= 1 {
      TestedBits(s[0]);
      hide BitOf;
      if s[0] & 0x80 == 0 {
        ShortNumber(s[0]);
      } else if |s| >= 2 {
        LongNumber(s[0], s[1]);
      }
    }
  }

  lemma ShortNumber(a: octet)
    requires a & 0x80 == 0
    ensures (a & 0x7f) as bv16 == a as bv16
  {
  }

  lemma LongNumber(a: octet, b: octet)
    requires a & 0x80 != 0
    ensures (((a & 0x7f) as bv16) << 8) | (b as bv16) == ((a - 0x80) as bv16) * 0x100 + b as bv16
  {
  }

  lemma TkLayout(t: bool, k: bool, b: octet)
    ensures var (tid, y, keyIdx) := DecodeTk(t, k, b);
            (t ==> tid == b >> 6 && y == BitOf(b, 5)) && (k ==> keyIdx == b % 32)
  {
    TestedBits(b);
  }

  /** When a payload is accepted: it has a byte after its descriptor, and the descriptor does not have the index
      of level zero without the level. */
  lemma AcceptedIff(payload: seq<octet>)
    ensures var extended := |payload| >= 2 && BitOf(payload[0], 7);
            var f := if extended then FlagsOf(payload[1]) else NO_FLAGS;
            var size := if extended then 2 + PidSize(f, payload[2..]) + Tl0Size(f) + TkSize(f) else 1;
            && (Decode(payload) == Err(InvalidPacket) <==> extended && BitOf(payload[1], 6) && !BitOf(payload[1], 5))
            && (Decode(payload).Ok? <==>
                  Decode(payload) != Err(InvalidPacket) && size < |payload|)
            && (Decode(payload).Ok? ==> Decode(payload).value.headerSize == size)
            && (Decode(payload).Err? ==> Decode(payload).error in {InvalidPacket, ShortPacket})
  {
    hide DecodeFields, BitOf, PidSize, Tl0Size, TkSize;
    if payload != [] {
      TestedBits(payload[0]);
      if |payload| >= 2 {
        TestedBits(payload[1]);
        FieldsLayout(FlagsOf(payload[1]), payload[2..]);
        assert payload[1..][1..] == payload[2..];
      }
    }
  }

  /** What each part of a descriptor is written as, whatever the fields hold. */
  lemma WrittenBytes(f: Flags, v: Fields)
    ensures FlagsByte(f) == (if f.i then 128 else 0) + (if f.l then 64 else 0) + (if f.t then 32 else 0)
                            + if f.k then 16 else 0
    ensures PidBytes(true, v.pictureID) ==
      [0x80 + (v.pictureID / 0x100 % 0x80) as octet, (v.pictureID % 0x100) as octet]
    ensures PidBytes(false, v.pictureID) == [(v.pictureID % 0x100) as octet]
    ensures TkByte(f.t, f.k, v.tid, v.y, v.keyIdx) ==
      (if f.t then v.tid * 64 + (if v.y then 32 else 0) else 0) + if f.k then v.keyIdx % 32 else 0
  {
    hide FlagsByte, TkByte, PidBytes;
    FlagsSum(f);
    TkSum(f.t, f.k, v.tid, v.y, v.keyIdx);
    PidParts(v.pictureID);
  }

  lemma FlagsSum(f: Flags)
    ensures FlagsByte(f) == (if f.i then 128 else 0) + (if f.l then 64 else 0) + (if f.t then 32 else 0)
                            + if f.k then 16 else 0
  {
  }

  lemma TkSum(t: bool, k: bool, tid: octet, y: bool, keyIdx: octet)
    ensures TkByte(t, k, tid, y, keyIdx) ==
      (if t then tid * 64 + (if y then 32 else 0) else 0) + if k then keyIdx % 32 else 0
  {
  }

  lemma PidParts(pid: bv16)
    ensures PidBytes(true, pid) == [0x80 + (pid / 0x100 % 0x80) as octet, (pid % 0x100) as octet]
    ensures PidBytes(false, pid) == [(pid % 0x100) as octet]
  {
  }

  /** What a payload lacks stays as the descriptor had it. */
  lemma KeptFields(old': VP8, payload: seq<octet>)
    requires Decode(payload).Ok?
    ensures DecodeOver(old', payload).Ok?
    ensures var v, w, o := DecodeOver(old', payload).value, Decode(payload).value.fields, old'.fields;
            && v == Decode(payload).value.(flags := v.flags, fields := v.fields)
            && (!BitOf(payload[0], 7) ==> v.flags == old'.flags && v.fields == o)
            && (BitOf(payload[0], 7) ==>
                  && |payload| > 2 && v.flags == Decode(payload).value.flags
                  && (v.fields.m, v.fields.pictureID)
                     == (if BitOf(payload[1], 7) then (w.m, w.pictureID) else (o.m, o.pictureID))
                  && v.fields.tl0PicIdx == (if BitOf(payload[1], 6) then w.tl0PicIdx else o.tl0PicIdx)
                  && (v.fields.tid, v.fields.y) == (if BitOf(payload[1], 5) then (w.tid, w.y) else (o.tid, o.y))
                  && v.fields.keyIdx == if BitOf(payload[1], 4) then w.keyIdx else o.keyIdx)
  {
    HeadLayout(payload);
    TestedBits(payload[0]);
    hide Decode, BitOf;
  }
}
