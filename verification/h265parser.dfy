/** The parser of pkg/codec/h26xhelper.go for H.265, read by read. */
module H265Parser {
  import opened Wrappers
  import opened BitStream
  import opened BitReader
  import opened NalUnit
  import opened H265Syntax

  /** What `r` and the reader have to be, when the parser on bits answers `want`. */
  ghost predicate Answers<T>(want: Result<(T, Bits), Error>, r: Result<T, Error>, rest: Bits) {
    match want
    case Err(e) => r == Err(e)
    case Ok((v, s)) => r == Ok(v) && rest == s
  }

  ghost predicate Skips(want: Result<Bits, Error>, ok: bool, rest: Bits) {
    match want
    case Err(e) => !ok && e == NotEnoughBits
    case Ok(s) => ok && rest == s
  }

  /** NAL header and what precedes the profile. */
  method ReadHeader(br: BitReader) returns (r: Result<nat, Error>)
    requires br.Valid()
    modifies br
    ensures br.Valid() && Answers(ParseHeader(old(br.Rest())), r, br.Rest())
    ensures r.Ok? ==> r.value < 8
  {
    hide TakeBits;
    var unused, ok := br.ReadBits(1);  // forbidden_zero_bit
    if !ok { return Err(NotEnoughBits); }
    var nalUnitType, ok2 := br.ReadBits(6);
    if !ok2 { return Err(NotEnoughBits); }
    unused, ok := br.ReadBits(6);  // nuh_layer_id
    if !ok { return Err(NotEnoughBits); }
    unused, ok := br.ReadBits(3);  // nuh_temporal_id_plus1
    if !ok { return Err(NotEnoughBits); }
    if nalUnitType != 33 {
      return Err(NotSps(nalUnitType));
    }
    unused, ok := br.ReadBits(4);  // sps_video_parameter_set_id
    if !ok { return Err(NotEnoughBits); }
    ThreeBits(br.Rest());
    var n, ok3 := br.ReadBits(3);  // sps_max_sub_layers_minus1
    if !ok3 { return Err(NotEnoughBits); }
    unused, ok := br.ReadBits(1);  // sps_temporal_id_nesting_flag
    if !ok { return Err(NotEnoughBits); }
    return Ok(n);
  }

  lemma ThreeBits(s: Bits)
    ensures TakeBits(s, 3).value < 8
  {
    if |s| >= 3 {
      ShiftedValue(s[..3]);
      assert Pow2(3) == 8;
    }
  }

  method ReadGeneralProfile(br: BitReader) returns (ok: bool)
    requires br.Valid()
    modifies br
    ensures br.Valid() && Skips(ParseGeneralProfile(old(br.Rest())), ok, br.Rest())
  {
    hide TakeBits;
    var unused;
    unused, ok := br.ReadBits(2 + 1 + 5);
    if !ok { return; }
    unused, ok := br.ReadBits(32);  // general_profile_compatibility_flags
    if !ok { return; }
    unused, ok := br.ReadBits(16);  // general_constraint_indicator_flags
    if !ok { return; }
    unused, ok := br.ReadBits(32);
    if !ok { return; }
    unused, ok := br.ReadBits(8);  // general_level_idc
  }

  /** The flags that say what the sub-layers have. */
  method ReadFlags(br: BitReader, n: nat) returns (r: Result<seq<(bool, bool)>, Error>)
    requires br.Valid()
    modifies br
    ensures br.Valid() && Answers(ParseFlags(old(br.Rest()), n), r, br.Rest())
    ensures r.Ok? ==> |r.value| == n
  {
    hide TakeFlag, ParseFlags, FlagsSoFar;
    var flags := [];
    ghost var s := br.Rest();
    NoFlagsYet(s, n);
    for i := 0 to n
      invariant br.Valid() && |flags| == i
      invariant FlagsSoFar(s, n, flags, br.Rest(), n - i)
    {
      TwoMoreFlags(s, n, flags, br.Rest(), n - i);
      var f1, ok1 := br.ReadFlag();
      if !ok1 { return Err(NotEnoughBits); }
      var f2, ok2 := br.ReadFlag();
      if !ok2 { return Err(NotEnoughBits); }
      flags := flags + [(f1, f2)];
    }
    AllFlags(s, n, flags, br.Rest());
    return Ok(flags);
  }

  /** Parsing `s` gives `flags`, and then what parsing `rest` gives. */
  ghost predicate FlagsSoFar(s: Bits, n: nat, flags: seq<(bool, bool)>, rest: Bits, left: nat) {
    match ParseFlags(rest, left)
    case Err(e) => ParseFlags(s, n) == Err(e)
    case Ok((more, end)) => ParseFlags(s, n) == Ok((flags + more, end))
  }

  lemma NoFlagsYet(s: Bits, n: nat)
    ensures FlagsSoFar(s, n, [], s, n)
  {
    if ParseFlags(s, n).Ok? {
      assert [] + ParseFlags(s, n).value.0 == ParseFlags(s, n).value.0;
    }
  }

  lemma AllFlags(s: Bits, n: nat, flags: seq<(bool, bool)>, rest: Bits)
    requires FlagsSoFar(s, n, flags, rest, 0)
    ensures ParseFlags(s, n) == Ok((flags, rest))
  {
    assert flags + [] == flags;
  }

  lemma TwoMoreFlags(s: Bits, n: nat, flags: seq<(bool, bool)>, rest: Bits, left: nat)
    requires FlagsSoFar(s, n, flags, rest, left) && 0 < left
    ensures var f1 := TakeFlag(rest);
            var f2 := TakeFlag(f1.rest);
            if f1.ok && f2.ok then FlagsSoFar(s, n, flags + [(f1.value, f2.value)], f2.rest, left - 1)
            else ParseFlags(s, n) == Err(NotEnoughBits)
  {
    hide TakeFlag;
    var f1 := TakeFlag(rest);
    var f2 := TakeFlag(f1.rest);
    if f1.ok && f2.ok && ParseFlags(f2.rest, left - 1).Ok? {
      var more := ParseFlags(f2.rest, left - 1).value.0;
      assert flags + ([(f1.value, f2.value)] + more) == flags + [(f1.value, f2.value)] + more;
    }
  }

  method SkipReserved(br: BitReader, n: nat) returns (ok: bool)
    requires br.Valid() && 0 < n < 8
    modifies br
    ensures br.Valid() && Skips(SkipPairs(old(br.Rest()), 8 - n), ok, br.Rest())
  {
    hide TakeBits;
    ghost var s := br.Rest();
    for i := n to 8
      invariant br.Valid() && SkipPairs(s, 8 - n) == SkipPairs(br.Rest(), 8 - i)
    {
      var unused;
      unused, ok := br.ReadBits(2);
      if !ok { return; }
    }
    ok := true;
  }

  method ReadSubLayer(br: BitReader, flags: (bool, bool)) returns (ok: bool)
    requires br.Valid()
    modifies br
    ensures br.Valid() && Skips(ParseSubLayer(old(br.Rest()), flags), ok, br.Rest())
  {
    hide TakeBits;
    var unused;
    ok := true;
    if flags.0 {
      unused, ok := br.ReadBits(2 + 1 + 5);
      if !ok { return; }
      unused, ok := br.ReadBits(32);
      if !ok { return; }
      unused, ok := br.ReadBits(48);
      if !ok { return; }
    }
    if flags.1 {
      unused, ok := br.ReadBits(8);
    }
  }

  /** profile_tier_level(1, n) */
  method ReadPtl(br: BitReader, n: nat) returns (ok: bool)
    requires br.Valid() && n < 8
    modifies br
    ensures br.Valid() && Skips(ParsePtl(old(br.Rest()), n), ok, br.Rest())
  {
    hide ParseGeneralProfile, ParseFlags, ParseSubLayer;
    ok := ReadGeneralProfile(br);
    if !ok { return; }
    var flags := ReadFlags(br, n);
    if flags.Err? {
      FlagsFail(old(br.Rest()), n);
      return false;
    }
    if n > 0 {
      ok := SkipReserved(br, n);
      if !ok { return; }
    }
    ghost var s := br.Rest();
    for i := 0 to n
      invariant br.Valid()
      invariant ParseSubLayers(s, flags.value) == ParseSubLayers(br.Rest(), flags.value[i..])
    {
      assert flags.value[i..][1..] == flags.value[i + 1..];
      ok := ReadSubLayer(br, flags.value[i]);
      if !ok { return; }
    }
    ok := true;
  }

  lemma FlagsFail(s: Bits, n: nat)
    ensures ParseGeneralProfile(s).Ok? && ParseFlags(ParseGeneralProfile(s).value, n).Err? ==>
      ParsePtl(s, n) == Err(NotEnoughBits)
  {
    if ParseGeneralProfile(s).Ok? {
      FlagsError(ParseGeneralProfile(s).value, n);
    }
  }

  lemma {:induction false} FlagsError(s: Bits, n: nat)
    ensures ParseFlags(s, n).Err? ==> ParseFlags(s, n).error == NotEnoughBits
    decreases n
  {
    if n > 0 && TakeFlag(s).ok && TakeFlag(TakeFlag(s).rest).ok {
      FlagsError(TakeFlag(TakeFlag(s).rest).rest, n - 1);
    }
  }

  method ReadWindow(br: BitReader) returns (r: Result<Option<Window>, Error>)
    requires br.Valid()
    modifies br
    ensures br.Valid() && Answers(ParseWindow(old(br.Rest())), r, br.Rest())
  {
    hide TakeFlag, TakeUE;
    var confFlag, ok := br.ReadFlag();
    if !ok { return Err(NotEnoughBits); }
    if !confFlag {
      return Ok(None);
    }
    var left, ok1 := br.ReadUE();
    if !ok1 { return Err(NotEnoughBits); }
    var right, ok2 := br.ReadUE();
    if !ok2 { return Err(NotEnoughBits); }
    var top, ok3 := br.ReadUE();
    if !ok3 { return Err(NotEnoughBits); }
    var bottom, ok4 := br.ReadUE();
    if !ok4 { return Err(NotEnoughBits); }
    return Ok(Some(Window(left, right, top, bottom)));
  }

  /** The fields that the size needs. */
  method ReadCore(br: BitReader) returns (r: Result<SPSInfo, Error>)
    requires br.Valid()
    modifies br
    ensures br.Valid() && Answers(ParseCore(old(br.Rest())), r, br.Rest())
  {
    hide TakeFlag, TakeUE, ParseWindow, CroppedInRegisters;
    var _, ok := br.ReadUE();  // sps_seq_parameter_set_id
    if !ok { return Err(NotEnoughBits); }
    var chroma, ok1 := br.ReadUE();
    if !ok1 { return Err(NotEnoughBits); }
    if chroma == 3 {
      var _, ok2 := br.ReadFlag();  // separate_colour_plane_flag
      if !ok2 { return Err(NotEnoughBits); }
    }
    var picW, ok3 := br.ReadUE();
    if !ok3 { return Err(NotEnoughBits); }
    var picH, ok4 := br.ReadUE();
    if !ok4 { return Err(NotEnoughBits); }
    var window := ReadWindow(br);
    if window.Err? { return Err(window.error); }
    var w := if window.value.Some? then window.value.value else Window(0, 0, 0, 0);
    var displayW, displayH := picW, picH;
    if window.value.Some? {
      displayW := CroppedInRegisters(picW, w.left, w.right, SubWidthC(chroma));
      displayH := CroppedInRegisters(picH, w.top, w.bottom, SubHeightC(chroma));
    }
    return Ok(SPSInfo(chroma, picW, picH, window.value.Some?, w.left, w.right, w.top, w.bottom,
                      picW, picH, displayW, displayH));
  }

  /** The payload bits of a NAL unit. */
  ghost function PayloadBits(nal: seq<byte>): Bits {
    BytesToBits(Removed(nal, |nal|))
  }

  method ParseH265SPS(nal: seq<byte>) returns (r: Result<SPSInfo, Error>)
    ensures match ParseSps(PayloadBits(StripStartCode(nal)))
            case Err(e) => r == Err(e)
            case Ok((info, _)) => r == Ok(info)
  {
    hide ParseHeader, ParsePtl, ParseCore, BytesToBits, Removed, StripStartCode;
    var stripped := StripStartCode(nal);
    var rbsp := RemoveEmulationPreventionBytes(stripped);
    var br := new BitReader(rbsp);
    ghost var s := br.Rest();
    var n := ReadHeader(br);
    if n.Err? { return Err(n.error); }
    ghost var s1 := br.Rest();
    var ok := ReadPtl(br, n.value);
    if !ok { return Err(NotEnoughBits); }
    r := ReadCore(br);
  }

  /** End to end: any well-formed parameter set, serialized into bytes, protected against start codes, and
      with or without a start code in front, parses to exactly its fields and its cropped size. */
  lemma ParsesEverySps(s: Sps, rest: Bits, c: StartCode)
    requires WellFormed(s) && |SpsBits(s, rest)| % 8 == 0
    ensures ParseSps(PayloadBits(StripStartCode(CodeBytes(c) + Inserted(Pack(SpsBits(s, rest))))))
         == Ok((Described(s), rest))
  {
    hide ParseSps, SpsBits, WellFormed, Described, BytesToBits, Pack, Inserted;
    PackRoundTrip(SpsBits(s, rest));
    NalRoundTrip(c, Pack(SpsBits(s, rest)));
    SpsRoundTrip(s, rest);
  }
}
