/** The sequence parameter set of section 7.3.2.2.1 of ITU-T H.265, as far as it is read for the picture
    size: its syntax, and the parser as a function on the remaining bits. */
module H265Syntax {
  import opened Wrappers
  import opened BitStream

  datatype Error = NotEnoughBits | NotSps(nalType: nat) | EmptyNal | TooManyRefFrames

  /** What the parsers of both codecs answer. */
  datatype SPSInfo = SPSInfo(
    chromaFormatIDC: nat,
    picWidthInLumaSamples: nat, picHeightInLumaSamples: nat,
    conformanceWindowFlag: bool,
    confWinLeftOffset: nat, confWinRightOffset: nat, confWinTopOffset: nat, confWinBottomOffset: nat,
    codedWidth: nat, codedHeight: nat,
    displayWidth: nat, displayHeight: nat)

  datatype Window = Window(left: nat, right: nat, top: nat, bottom: nat)

  /** profile_space to profile_idc, compatibility flags, constraint flags. */
  datatype Profile = Profile(idc: Bits, compatibility: Bits, constraints: Bits)

  datatype SubLayer = SubLayer(profile: Option<Profile>, level: Option<Bits>)

  datatype Sps = Sps(
    forbidden: bool, layerId: Bits, temporalId: Bits,
    vpsId: Bits, nesting: bool,
    idc: Bits, compatibility: Bits, constraintsHigh: Bits, constraintsLow: Bits, level: Bits,
    subLayers: seq<SubLayer>, reserved: Bits,
    spsId: nat, chroma: nat, separatePlanes: bool, width: nat, height: nat, window: Option<Window>)

  const UE_LIMIT: nat := 0xFFFF_FFFF  // codes stay below this

  ghost predicate WellFormedSubLayer(l: SubLayer) {
    && (l.profile.Some? ==>
          |l.profile.value.idc| == 8 && |l.profile.value.compatibility| == 32 && |l.profile.value.constraints| == 48)
    && (l.level.Some? ==> |l.level.value| == 8)
  }

  ghost predicate WellFormedWindow(w: Window) {
    w.left < UE_LIMIT && w.right < UE_LIMIT && w.top < UE_LIMIT && w.bottom < UE_LIMIT
  }

  ghost predicate WellFormed(s: Sps) {
    && |s.layerId| == 6 && |s.temporalId| == 3 && |s.vpsId| == 4
    && |s.idc| == 8 && |s.compatibility| == 32 && |s.constraintsHigh| == 16 && |s.constraintsLow| == 32
    && |s.level| == 8
    && |s.subLayers| <= 7 && (forall i | 0 <= i < |s.subLayers| :: WellFormedSubLayer(s.subLayers[i]))
    && |s.reserved| == (if |s.subLayers| > 0 then 2 * (8 - |s.subLayers|) else 0)
    && s.spsId < UE_LIMIT && s.chroma < UE_LIMIT && s.width < UE_LIMIT && s.height < UE_LIMIT
    && (s.window.Some? ==> WellFormedWindow(s.window.value))
  }

  // The serializer: each function puts its part in front of `rest`.

  function FlagBits(ls: seq<SubLayer>, rest: Bits): Bits {
    if ls == [] then rest
    else [ls[0].profile.Some?] + ([ls[0].level.Some?] + FlagBits(ls[1..], rest))
  }

  function SubLayerBits(l: SubLayer, rest: Bits): Bits {
    var rest := if l.level.Some? then l.level.value + rest else rest;
    if l.profile.Some? then
      l.profile.value.idc + (l.profile.value.compatibility + (l.profile.value.constraints + rest))
    else rest
  }

  function SubLayersBits(ls: seq<SubLayer>, rest: Bits): Bits {
    if ls == [] then rest else SubLayerBits(ls[0], SubLayersBits(ls[1..], rest))
  }

  function WindowBits(w: Option<Window>, rest: Bits): Bits {
    match w
    case None => [false] + rest
    case Some(w) => [true] + (UE(w.left) + (UE(w.right) + (UE(w.top) + (UE(w.bottom) + rest))))
  }

  /** What the sub-layers take: 88 bits for each profile, 8 for each level. */
  function SubLayersSize(ls: seq<SubLayer>): nat {
    if ls == [] then 0
    else
      (if ls[0].profile.Some? then 88 else 0) + (if ls[0].level.Some? then 8 else 0) + SubLayersSize(ls[1..])
  }

  function CoreBits(s: Sps, rest: Bits): Bits {
    var rest := UE(s.width) + (UE(s.height) + WindowBits(s.window, rest));
    UE(s.spsId) + (UE(s.chroma) + if s.chroma == 3 then [s.separatePlanes] + rest else rest)
  }

  function PtlBits(s: Sps, rest: Bits): Bits {
    s.idc + (s.compatibility + (s.constraintsHigh + (s.constraintsLow + (s.level +
      FlagBits(s.subLayers, s.reserved + SubLayersBits(s.subLayers, rest))))))
  }

  /** The bits of a NAL unit that holds `s`, and whatever follows the part that is read. */
  function SpsBits(s: Sps, rest: Bits): Bits {
    [s.forbidden] + (Binary(33, 6) + (s.layerId + (s.temporalId +
      (s.vpsId + (Binary(|s.subLayers|, 3) + ([s.nesting] + PtlBits(s, CoreBits(s, rest))))))))
  }

  // Where the fields are, by position.

  lemma {:induction false} FlagsPlace(ls: seq<SubLayer>, rest: Bits)
    ensures |FlagBits(ls, rest)| == 2 * |ls| + |rest| && FlagBits(ls, rest)[2 * |ls|..] == rest
    ensures forall i | 0 <= i < |ls| ::
      FlagBits(ls, rest)[2 * i] == ls[i].profile.Some? && FlagBits(ls, rest)[2 * i + 1] == ls[i].level.Some?
  {
    if ls != [] {
      FlagsPlace(ls[1..], rest);
      var more := FlagBits(ls[1..], rest);
      var bits := [ls[0].profile.Some?] + ([ls[0].level.Some?] + more);
      assert bits[2 * |ls|..] == more[2 * |ls| - 2..];
      forall i | 0 < i < |ls|
        ensures bits[2 * i] == ls[i].profile.Some? && bits[2 * i + 1] == ls[i].level.Some?
      {
        assert bits[2 * i] == more[2 * (i - 1)] && bits[2 * i + 1] == more[2 * (i - 1) + 1];
        assert ls[1..][i - 1] == ls[i];
      }
    }
  }

  lemma Dropped(a: Bits, b: Bits, n: nat)
    requires n >= |a| && n - |a| <= |b|
    ensures (a + b)[n..] == b[n - |a|..]
  {
  }

  lemma {:induction false} SubLayersPlace(ls: seq<SubLayer>, rest: Bits)
    requires forall i | 0 <= i < |ls| :: WellFormedSubLayer(ls[i])
    ensures |SubLayersBits(ls, rest)| == SubLayersSize(ls) + |rest|
    ensures SubLayersBits(ls, rest)[SubLayersSize(ls)..] == rest
  {
    if ls != [] {
      SubLayersPlace(ls[1..], rest);
      var l, more := ls[0], SubLayersBits(ls[1..], rest);
      var size := SubLayersSize(ls[1..]);
      var level := if l.level.Some? then l.level.value else [];
      var profile := if l.profile.Some?
        then l.profile.value.idc + l.profile.value.compatibility + l.profile.value.constraints else [];
      assert WellFormedSubLayer(l);
      Grouped(l, more);
      Dropped(level, more, |level| + size);
      Dropped(profile, level + more, |profile| + |level| + size);
    }
  }

  /** The header and the general profile take 120 bits: the NAL unit type is bits 1 to 6, the number of sub-layers
      bits 20 to 22. Two flags for each sub-layer follow, 16 bits in all if there is any, then what the
      sub-layers have, and then the codes that give the size: identifier, chroma format, width, height, and
      the window from left to bottom. */
  lemma SpsLayout(s: Sps, rest: Bits)
    requires WellFormed(s)
    ensures var bits, n := SpsBits(s, rest), |s.subLayers|;
            var core := 120 + (if n > 0 then 16 else 0) + SubLayersSize(s.subLayers);
            && core <= |bits| && bits[1..7] == Binary(33, 6) && bits[20..23] == Binary(n, 3)
            && (forall i | 0 <= i < n :: bits[120 + 2 * i] == s.subLayers[i].profile.Some?
                                      && bits[120 + 2 * i + 1] == s.subLayers[i].level.Some?)
            && bits[core..] == UE(s.spsId) + UE(s.chroma) + (if s.chroma == 3 then [s.separatePlanes] else [])
                 + UE(s.width) + UE(s.height) + [s.window.Some?]
                 + (if s.window.Some? then UE(s.window.value.left) + UE(s.window.value.right)
                                           + UE(s.window.value.top) + UE(s.window.value.bottom) else []) + rest
  {
    hide Binary, UE, FlagBits, SubLayersBits, WellFormedSubLayer, SubLayersSize, CoreBits, PtlBits;
    var n, core := |s.subLayers|, CoreBits(s, rest);
    HeaderPlace(s, PtlBits(s, core));
    PtlPlace(s, core);
    CoreOrder(s, rest);
    var bits, ptl := SpsBits(s, rest), PtlBits(s, core);
    assert forall i | 0 <= i < |ptl| :: bits[24 + i] == ptl[i];
    DropTwice(bits, 24, 96 + (if n > 0 then 16 else 0) + SubLayersSize(s.subLayers));
  }

  lemma HeaderPlace(s: Sps, rest: Bits)
    requires |s.layerId| == 6 && |s.temporalId| == 3 && |s.vpsId| == 4
    ensures var bits := [s.forbidden] + (Binary(33, 6) + (s.layerId + (s.temporalId +
                          (s.vpsId + (Binary(|s.subLayers|, 3) + ([s.nesting] + rest))))));
            |bits| == 24 + |rest| && bits[1..7] == Binary(33, 6) && bits[20..23] == Binary(|s.subLayers|, 3)
            && bits[24..] == rest
  {
    hide Binary;
  }

  lemma PtlPlace(s: Sps, rest: Bits)
    requires WellFormed(s)
    ensures var bits, n := PtlBits(s, rest), |s.subLayers|;
            var size := 96 + (if n > 0 then 16 else 0) + SubLayersSize(s.subLayers);
            && size <= |bits| && bits[size..] == rest && 96 + 2 * n <= |bits|
            && forall i | 0 <= i < n :: bits[96 + 2 * i] == s.subLayers[i].profile.Some?
                                     && bits[96 + 2 * i + 1] == s.subLayers[i].level.Some?
  {
    hide FlagBits, SubLayersBits, WellFormedSubLayer, SubLayersSize;
    var n, bodies := |s.subLayers|, SubLayersBits(s.subLayers, rest);
    SubLayersPlace(s.subLayers, rest);
    FlagsPlace(s.subLayers, s.reserved + bodies);
    var flags := FlagBits(s.subLayers, s.reserved + bodies);
    ProfilePlace(s, flags);
    var bits := PtlBits(s, rest);
    assert forall i | 0 <= i < |flags| :: bits[96 + i] == flags[i];
    DropTwice(bits, 96, 2 * n);
    DropTwice(bits, 96 + 2 * n, |s.reserved|);
    Dropped(s.reserved, bodies, |s.reserved|);
    DropTwice(bits, 96 + 2 * n + |s.reserved|, SubLayersSize(s.subLayers));
  }

  lemma ProfilePlace(s: Sps, rest: Bits)
    requires WellFormed(s)
    ensures var bits := s.idc + (s.compatibility + (s.constraintsHigh + (s.constraintsLow + (s.level + rest))));
            |bits| == 96 + |rest| && bits[96..] == rest
  {
    hide WellFormedSubLayer;
  }

  lemma CoreOrder(s: Sps, rest: Bits)
    ensures CoreBits(s, rest) == UE(s.spsId) + UE(s.chroma) + (if s.chroma == 3 then [s.separatePlanes] else [])
                 + UE(s.width) + UE(s.height) + [s.window.Some?]
                 + (if s.window.Some? then UE(s.window.value.left) + UE(s.window.value.right)
                                           + UE(s.window.value.top) + UE(s.window.value.bottom) else []) + rest
  {
    hide UE;
    var planes := if s.chroma == 3 then [s.separatePlanes] else [];
    if s.window.Some? {
      var w := s.window.value;
      Regrouped(UE(w.left), UE(w.right), UE(w.top), UE(w.bottom) + rest);
      assert UE(w.left) + UE(w.right) + UE(w.top) + (UE(w.bottom) + rest)
          == (UE(w.left) + UE(w.right) + UE(w.top) + UE(w.bottom)) + rest;
    }
    var after := WindowBits(s.window, rest);
    var window := if s.window.Some? then UE(s.window.value.left) + UE(s.window.value.right)
                                         + UE(s.window.value.top) + UE(s.window.value.bottom) else [];
    assert after == [s.window.Some?] + (window + rest);
    var sizes := UE(s.width) + (UE(s.height) + after);
    assert CoreBits(s, rest) == UE(s.spsId) + (UE(s.chroma) + (planes + sizes));
    hide CoreBits, WindowBits;
    Regrouped(UE(s.spsId), UE(s.chroma), planes, sizes);
    Regrouped(UE(s.spsId) + UE(s.chroma) + planes, UE(s.width), UE(s.height), after);
    Regrouped(UE(s.spsId) + UE(s.chroma) + planes + UE(s.width) + UE(s.height), [s.window.Some?], window, rest);
  }

  lemma Grouped(l: SubLayer, rest: Bits)
    ensures SubLayerBits(l, rest) ==
      (if l.profile.Some?
       then l.profile.value.idc + l.profile.value.compatibility + l.profile.value.constraints else [])
      + ((if l.level.Some? then l.level.value else []) + rest)
  {
    if l.profile.Some? {
      var p, after := l.profile.value, if l.level.Some? then l.level.value + rest else rest;
      Regrouped(p.idc, p.compatibility, p.constraints, after);
    }
    assert [] + rest == rest;
  }

  lemma Regrouped(a: Bits, b: Bits, c: Bits, d: Bits)
    ensures a + (b + (c + d)) == a + b + c + d
  {
  }

  // The parser.

  function Need<T>(g: Got<T>): Result<(T, Bits), Error> {
    if g.ok then Ok((g.value, g.rest)) else Err(NotEnoughBits)
  }

  /** Up to the profile; answers sps_max_sub_layers_minus1. */
  function ParseHeader(s: Bits): Result<(nat, Bits), Error> {
    var (_, s) :- Need(TakeBits(s, 1));
    var (nalType, s) :- Need(TakeBits(s, 6));
    var (_, s) :- Need(TakeBits(s, 6));
    var (_, s) :- Need(TakeBits(s, 3));
    if nalType != 33 then Err(NotSps(nalType))
    else
      var (_, s) :- Need(TakeBits(s, 4));
      var (n, s) :- Need(TakeBits(s, 3));
      var (_, s) :- Need(TakeBits(s, 1));
      Ok((n, s))
  }

  function ParseGeneralProfile(s: Bits): Result<Bits, Error> {
    var (_, s) :- Need(TakeBits(s, 8));
    var (_, s) :- Need(TakeBits(s, 32));
    var (_, s) :- Need(TakeBits(s, 16));
    var (_, s) :- Need(TakeBits(s, 32));
    var (_, s) :- Need(TakeBits(s, 8));
    Ok(s)
  }

  function ParseFlags(s: Bits, n: nat): (r: Result<(seq<(bool, bool)>, Bits), Error>)
    ensures r.Ok? ==> |r.value.0| == n
  {
    if n == 0 then Ok(([], s))
    else
      var (profile, s) :- Need(TakeFlag(s));
      var (level, s) :- Need(TakeFlag(s));
      var (more, s) :- ParseFlags(s, n - 1);
      Ok(([(profile, level)] + more, s))
  }

  function SkipPairs(s: Bits, n: nat): Result<Bits, Error> {
    if n == 0 then Ok(s)
    else
      var (_, s) :- Need(TakeBits(s, 2));
      SkipPairs(s, n - 1)
  }

  function ParseSubLayer(s: Bits, flags: (bool, bool)): Result<Bits, Error> {
    var s :- if !flags.0 then Ok(s) else
      (var (_, s) :- Need(TakeBits(s, 8));
       var (_, s) :- Need(TakeBits(s, 32));
       var (_, s) :- Need(TakeBits(s, 48));
       Ok(s));
    if !flags.1 then Ok(s)
    else
      var (_, s) :- Need(TakeBits(s, 8));
      Ok(s)
  }

  function ParseSubLayers(s: Bits, flags: seq<(bool, bool)>): Result<Bits, Error> {
    if flags == [] then Ok(s)
    else
      var s :- ParseSubLayer(s, flags[0]);
      ParseSubLayers(s, flags[1..])
  }

  /** profile_tier_level(1, n). */
  function ParsePtl(s: Bits, n: nat): Result<Bits, Error> {
    var s :- ParseGeneralProfile(s);
    var (flags, s) :- ParseFlags(s, n);
    var s :- SkipPairs(s, if 0 < n < 8 then 8 - n else 0);
    ParseSubLayers(s, flags)
  }

  function ParseWindow(s: Bits): Result<(Option<Window>, Bits), Error> {
    var (flag, s) :- Need(TakeFlag(s));
    if !flag then Ok((None, s))
    else
      var (l, s) :- Need(TakeUE(s));
      var (r, s) :- Need(TakeUE(s));
      var (t, s) :- Need(TakeUE(s));
      var (b, s) :- Need(TakeUE(s));
      Ok((Some(Window(l, r, t, b)), s))
  }

  function ParseCore(s: Bits): Result<(SPSInfo, Bits), Error> {
    var (_, s) :- Need(TakeUE(s));
    var (chroma, s) :- Need(TakeUE(s));
    var s :- if chroma == 3 then (var (_, s) :- Need(TakeFlag(s)); Ok(s)) else Ok(s);
    var (width, s) :- Need(TakeUE(s));
    var (height, s) :- Need(TakeUE(s));
    var (window, s) :- ParseWindow(s);
    Ok((Info(chroma, width, height, window), s))
  }

  /** The size after cropping: a window larger than the picture leaves 0. */
  function Cropped(size: nat, offsets: nat, unit: nat): nat {
    if size < offsets * unit then 0 else size - offsets * unit
  }

  /** The same size, computed in 64-bit registers. */
  function CroppedInRegisters(size: nat, a: nat, b: nat, unit: nat): nat
    requires size < UINT_RANGE
  {
    var d := WrapInt(ToInt(size) - WrapInt(ToInt((a + b) % UINT_RANGE) * unit));
    if d < 0 then 0 else d
  }

  /** Registers are wide enough for every code that the syntax allows. */
  lemma RegistersSuffice(size: nat, a: nat, b: nat, unit: nat)
    requires size < 0x10_0000_0000_0000 && a < UE_LIMIT && b < UE_LIMIT && 1 <= unit <= 4
    ensures CroppedInRegisters(size, a, b, unit) == Cropped(size, a + b, unit)
  {
    SmallSigned(a + b);
    var crop := (a + b) * unit;
    assert 0 <= crop <= 8 * UE_LIMIT;
    SmallSigned(crop);
    SmallSigned(size - crop);
    SmallSigned(size);
  }

  lemma SmallSigned(x: int)
    requires -(UINT_RANGE as int) < 2 * x < UINT_RANGE
    ensures WrapInt(x) == x
    ensures 0 <= x ==> x % UINT_RANGE == x && ToInt(x) == x
  {
  }

  function SubWidthC(chroma: nat): nat {
    if chroma == 1 || chroma == 2 then 2 else 1
  }

  function SubHeightC(chroma: nat): nat {
    if chroma == 1 then 2 else 1
  }

  function Info(chroma: nat, width: nat, height: nat, window: Option<Window>): SPSInfo
    requires width < UINT_RANGE && height < UINT_RANGE
  {
    match window
    case None => SPSInfo(chroma, width, height, false, 0, 0, 0, 0, width, height, width, height)
    case Some(w) =>
      SPSInfo(chroma, width, height, true, w.left, w.right, w.top, w.bottom, width, height,
              CroppedInRegisters(width, w.left, w.right, SubWidthC(chroma)),
              CroppedInRegisters(height, w.top, w.bottom, SubHeightC(chroma)))
  }

  /** The size that the syntax gives a parameter set. */
  function DisplaySize(s: Sps): (nat, nat) {
    match s.window
    case None => (s.width, s.height)
    case Some(w) =>
      (Cropped(s.width, w.left + w.right, SubWidthC(s.chroma)),
       Cropped(s.height, w.top + w.bottom, SubHeightC(s.chroma)))
  }

  /** The crop units of table 6-1 of ITU-T H.265: offsets count twice where the chroma planes are half as wide or
      half as high. */
  lemma DisplaySizeTable(s: Sps)
    requires s.window.Some?
    ensures var w, size := s.window.value, DisplaySize(s);
            var right, bottom := s.width - (w.left + w.right), s.height - (w.top + w.bottom);
            && (s.chroma == 1 ==> size.0 == AtLeast0(right - w.left - w.right)
                                  && size.1 == AtLeast0(bottom - w.top - w.bottom))
            && (s.chroma == 2 ==> size.0 == AtLeast0(right - w.left - w.right) && size.1 == AtLeast0(bottom))
            && (s.chroma != 1 && s.chroma != 2 ==> size.0 == AtLeast0(right) && size.1 == AtLeast0(bottom))
  {
  }

  function AtLeast0(x: int): (r: nat)
    ensures r == x || (r == 0 && x < 0)
  {
    if x < 0 then 0 else x
  }

  /** What there is to know of a parameter set, from its syntax elements. */
  function Described(s: Sps): SPSInfo {
    var w := if s.window.Some? then s.window.value else Window(0, 0, 0, 0);
    SPSInfo(s.chroma, s.width, s.height, s.window.Some?, w.left, w.right, w.top, w.bottom,
            s.width, s.height, DisplaySize(s).0, DisplaySize(s).1)
  }

  /** What is read, and the bits that are left. */
  function ParseSps(s: Bits): Result<(SPSInfo, Bits), Error> {
    var (n, s) :- ParseHeader(s);
    var s :- ParsePtl(s, n);
    ParseCore(s)
  }

  // Parsing inverts serializing, part by part.

  lemma FixedField(field: Bits, n: nat, rest: Bits)
    requires |field| == n
    ensures Need(TakeBits(field + rest, n)) == Ok((Shifted(field), rest))
  {
    TakeFixed(field, rest);
  }

  lemma HeaderRoundTrip(s: Sps, rest: Bits)
    requires |s.layerId| == 6 && |s.temporalId| == 3 && |s.vpsId| == 4 && |s.subLayers| <= 7
    ensures ParseHeader([s.forbidden] + (Binary(33, 6) + (s.layerId + (s.temporalId +
      (s.vpsId + (Binary(|s.subLayers|, 3) + ([s.nesting] + rest))))))) == Ok((|s.subLayers|, rest))
  {
    hide TakeBits;
    var n := |s.subLayers|;
    var s6 := [s.nesting] + rest;
    var s5 := Binary(n, 3) + s6;
    var s4 := s.vpsId + s5;
    var s3 := s.temporalId + s4;
    var s2 := s.layerId + s3;
    var s1 := Binary(33, 6) + s2;
    FixedField([s.forbidden], 1, s1);
    assert Pow2(6) == 64 && Pow2(3) == 8;
    TakeBinary(33, 6, s2);
    FixedField(s.layerId, 6, s3);
    FixedField(s.temporalId, 3, s4);
    FixedField(s.vpsId, 4, s5);
    TakeBinary(n, 3, s6);
    FixedField([s.nesting], 1, rest);
  }

  lemma GeneralProfileRoundTrip(s: Sps, rest: Bits)
    requires WellFormed(s)
    ensures ParseGeneralProfile(s.idc + (s.compatibility + (s.constraintsHigh + (s.constraintsLow + (s.level + rest)))))
         == Ok(rest)
  {
    hide TakeBits;
    var s4 := s.level + rest;
    var s3 := s.constraintsLow + s4;
    var s2 := s.constraintsHigh + s3;
    var s1 := s.compatibility + s2;
    FixedField(s.idc, 8, s1);
    FixedField(s.compatibility, 32, s2);
    FixedField(s.constraintsHigh, 16, s3);
    FixedField(s.constraintsLow, 32, s4);
    FixedField(s.level, 8, rest);
  }

  function FlagsOf(ls: seq<SubLayer>): (r: seq<(bool, bool)>)
    ensures |r| == |ls|
  {
    if ls == [] then [] else [(ls[0].profile.Some?, ls[0].level.Some?)] + FlagsOf(ls[1..])
  }

  lemma {:induction false} FlagsRoundTrip(ls: seq<SubLayer>, rest: Bits)
    ensures ParseFlags(FlagBits(ls, rest), |ls|) == Ok((FlagsOf(ls), rest))
  {
    if ls != [] {
      var more := FlagBits(ls[1..], rest);
      TakeOne(ls[0].profile.Some?, [ls[0].level.Some?] + more);
      TakeOne(ls[0].level.Some?, more);
      FlagsRoundTrip(ls[1..], rest);
    }
  }

  lemma {:induction false} PairsRoundTrip(reserved: Bits, n: nat, rest: Bits)
    requires |reserved| == 2 * n
    ensures SkipPairs(reserved + rest, n) == Ok(rest)
    decreases n
  {
    if n == 0 {
      assert reserved + rest == rest;
    } else {
      assert reserved + rest == reserved[..2] + (reserved[2..] + rest);
      FixedField(reserved[..2], 2, reserved[2..] + rest);
      PairsRoundTrip(reserved[2..], n - 1, rest);
    }
  }

  lemma SubLayerRoundTrip(l: SubLayer, rest: Bits)
    requires WellFormedSubLayer(l)
    ensures ParseSubLayer(SubLayerBits(l, rest), (l.profile.Some?, l.level.Some?)) == Ok(rest)
  {
    hide TakeBits;
    var after := if l.level.Some? then l.level.value + rest else rest;
    if l.profile.Some? {
      var p := l.profile.value;
      FixedField(p.idc, 8, p.compatibility + (p.constraints + after));
      FixedField(p.compatibility, 32, p.constraints + after);
      FixedField(p.constraints, 48, after);
    }
    if l.level.Some? {
      FixedField(l.level.value, 8, rest);
    }
  }

  lemma {:induction false} SubLayersRoundTrip(ls: seq<SubLayer>, rest: Bits)
    requires forall i | 0 <= i < |ls| :: WellFormedSubLayer(ls[i])
    ensures ParseSubLayers(SubLayersBits(ls, rest), FlagsOf(ls)) == Ok(rest)
  {
    if ls != [] {
      hide ParseSubLayer, SubLayerBits, WellFormedSubLayer;
      SubLayerRoundTrip(ls[0], SubLayersBits(ls[1..], rest));
      SubLayersRoundTrip(ls[1..], rest);
      assert FlagsOf(ls)[1..] == FlagsOf(ls[1..]);
    }
  }

  lemma PtlRoundTrip(s: Sps, rest: Bits)
    requires WellFormed(s)
    ensures ParsePtl(PtlBits(s, rest), |s.subLayers|) == Ok(rest)
  {
    hide ParseGeneralProfile, ParseFlags, SkipPairs, ParseSubLayers, FlagBits, SubLayersBits, WellFormedSubLayer;
    var n := |s.subLayers|;
    var bodies := SubLayersBits(s.subLayers, rest);
    GeneralProfileRoundTrip(s, FlagBits(s.subLayers, s.reserved + bodies));
    FlagsRoundTrip(s.subLayers, s.reserved + bodies);
    PairsRoundTrip(s.reserved, if n > 0 then 8 - n else 0, bodies);
    SubLayersRoundTrip(s.subLayers, rest);
  }

  lemma UEField(v: nat, rest: Bits)
    requires v < UE_LIMIT
    ensures Need(TakeUE(UE(v) + rest)) == Ok((v, rest))
  {
    hide TakeUE, UE;
    UERoundTrip(v, rest);
    InRegister(v);
  }

  lemma WindowRoundTrip(w: Option<Window>, rest: Bits)
    requires w.Some? ==> WellFormedWindow(w.value)
    ensures ParseWindow(WindowBits(w, rest)) == Ok((w, rest))
  {
    hide TakeUE, UE, TakeFlag;
    match w
    case None => TakeOne(false, rest);
    case Some(v) =>
      var s4 := UE(v.bottom) + rest;
      var s3 := UE(v.top) + s4;
      var s2 := UE(v.right) + s3;
      TakeOne(true, UE(v.left) + s2);
      UEField(v.left, s2);
      UEField(v.right, s3);
      UEField(v.top, s4);
      UEField(v.bottom, rest);
  }

  lemma CoreRoundTrip(s: Sps, rest: Bits)
    requires WellFormed(s)
    ensures ParseCore(CoreBits(s, rest)) == Ok((Info(s.chroma, s.width, s.height, s.window), rest))
  {
    hide TakeUE, UE, TakeFlag, ParseWindow, WindowBits, Info;
    var s3 := WindowBits(s.window, rest);
    var s2 := UE(s.height) + s3;
    var s1 := UE(s.width) + s2;
    var s0 := if s.chroma == 3 then [s.separatePlanes] + s1 else s1;
    UEField(s.spsId, UE(s.chroma) + s0);
    UEField(s.chroma, s0);
    TakeOne(s.separatePlanes, s1);
    UEField(s.width, s2);
    UEField(s.height, s3);
    WindowRoundTrip(s.window, rest);
  }

  /** Parsing the bits of any well-formed parameter set answers exactly its fields and its cropped size, and
      reads no further than the last of them. */
  lemma SpsRoundTrip(s: Sps, rest: Bits)
    requires WellFormed(s)
    ensures ParseSps(SpsBits(s, rest)) == Ok((Described(s), rest))
  {
    hide ParseHeader, ParsePtl, ParseCore, PtlBits, CoreBits, CroppedInRegisters, Cropped;
    HeaderRoundTrip(s, PtlBits(s, CoreBits(s, rest)));
    PtlRoundTrip(s, CoreBits(s, rest));
    CoreRoundTrip(s, rest);
    if s.window.Some? {
      RegistersSuffice(s.width, s.window.value.left, s.window.value.right, SubWidthC(s.chroma));
      RegistersSuffice(s.height, s.window.value.top, s.window.value.bottom, SubHeightC(s.chroma));
    }
  }
}
