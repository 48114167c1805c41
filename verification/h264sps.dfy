/** The sequence parameter set of section 7.3.2.1.1 of ITU-T H.264, up to the cropping offsets, and the
    parser for it as a function on bits. This parser goes on after a failed read, with the value 0. */
module H264Syntax {
  import opened Wrappers
  import opened BitStream
  import opened H265Syntax

  datatype High = High(chroma: nat, separatePlanes: bool, lumaDepth: nat, chromaDepth: nat, bypass: bool,
                       scaling: Option<seq<ScalingList>>)

  /** A list of the scaling matrix, by its deltas; `None` is one that is not there. */
  type ScalingList = Option<seq<int>>

  datatype Poc = Poc0(log2Max: nat) | Poc1(alwaysZero: bool, nonRef: int, topToBottom: int, refs: seq<int>) | Poc2

  datatype Avc = Avc(
    profile: nat, constraints: Bits, level: Bits, spsId: nat, high: Option<High>,
    log2MaxFrameNum: nat, poc: Poc, maxRefs: nat, gaps: bool,
    widthMbs: nat, heightMapUnits: nat, frameMbsOnly: bool, mbaff: bool, direct: bool, crop: Option<Window>)

  predicate IsHigh(profile: nat) {
    profile in {100, 110, 122, 244, 44, 83, 86, 118, 128}
  }

  predicate SmallSE(x: int) {
    -0x8000_0000 < x < 0x8000_0000
  }

  ghost predicate WellFormedAvc(s: Avc) {
    && s.profile < 256 && |s.constraints| == 8 && |s.level| == 8 && s.spsId < UE_LIMIT
    && s.high.Some? == IsHigh(s.profile)
    && (s.high.Some? ==> WellFormedHigh(s.high.value))
    && s.log2MaxFrameNum < UE_LIMIT && WellFormedPoc(s.poc) && s.maxRefs < UE_LIMIT
    && s.widthMbs < UE_LIMIT && s.heightMapUnits < UE_LIMIT
    && (s.crop.Some? ==> WellFormedWindow(s.crop.value))
  }

  ghost predicate WellFormedHigh(h: High) {
    && h.chroma < UE_LIMIT && h.lumaDepth < UE_LIMIT && h.chromaDepth < UE_LIMIT
    && (h.scaling.Some? ==>
          && |h.scaling.value| == (if h.chroma == 3 then 12 else 8)
          && forall i | 0 <= i < |h.scaling.value| :: WellFormedList(h.scaling.value[i]))
  }

  predicate WellFormedList(l: ScalingList) {
    l.Some? ==> 0 < |l.value| <= 64
  }

  /** The parser skips eight bits for a scaling matrix, whatever is in it. That is right for eight lists that are
      not there. */
  predicate Skipped(h: High) {
    h.scaling.Some? ==> |h.scaling.value| == 8 && forall i | 0 <= i < 8 :: h.scaling.value[i].None?
  }

  predicate ListsSkipped(s: Avc) {
    s.high.Some? ==> Skipped(s.high.value)
  }

  ghost predicate WellFormedPoc(p: Poc) {
    match p
    case Poc0(l) => l < UE_LIMIT
    case Poc1(_, a, b, refs) =>
      SmallSE(a) && SmallSE(b) && |refs| <= 255 && forall i | 0 <= i < |refs| :: SmallSE(refs[i])
    case Poc2 => true
  }

  // The serializer.

  function HighBits(h: Option<High>, rest: Bits): Bits {
    match h
    case None => rest
    case Some(h) =>
      var rest := if h.scaling.Some? then [true] + ListsBits(h.scaling.value, rest) else [false] + rest;
      var rest := UE(h.lumaDepth) + (UE(h.chromaDepth) + ([h.bypass] + rest));
      UE(h.chroma) + if h.chroma == 3 then [h.separatePlanes] + rest else rest
  }

  function ListsBits(ls: seq<ScalingList>, rest: Bits): Bits {
    if ls == [] then rest
    else
      var rest := ListsBits(ls[1..], rest);
      if ls[0].None? then [false] + rest else [true] + SEsBits(ls[0].value, rest)
  }

  function SEsBits(xs: seq<int>, rest: Bits): Bits {
    if xs == [] then rest else SE(xs[0]) + SEsBits(xs[1..], rest)
  }

  function PocBits(p: Poc, rest: Bits): Bits {
    match p
    case Poc0(l) => UE(0) + (UE(l) + rest)
    case Poc1(z, a, b, refs) => UE(1) + ([z] + (SE(a) + (SE(b) + (UE(|refs|) + SEsBits(refs, rest)))))
    case Poc2 => UE(2) + rest
  }

  function FrameBits(s: Avc, rest: Bits): Bits {
    var rest := [s.direct] + WindowBits(s.crop, rest);
    var rest := [s.frameMbsOnly] + if s.frameMbsOnly then rest else [s.mbaff] + rest;
    UE(s.maxRefs) + ([s.gaps] + (UE(s.widthMbs) + (UE(s.heightMapUnits) + rest)))
  }

  /** The bits after the one-byte NAL header. */
  function AvcBits(s: Avc, rest: Bits): Bits {
    Binary(s.profile, 8) + (s.constraints + (s.level + (UE(s.spsId) + HighBits(s.high,
      UE(s.log2MaxFrameNum) + PocBits(s.poc, FrameBits(s, rest))))))
  }

  // The order of the fields, written out.

  /** Three bytes; the identifier; for the high profiles their fields; the two codes that say how pictures are
      numbered and ordered, with what the second one asks for; then the rest. */
  lemma AvcOrder(s: Avc, rest: Bits)
    ensures AvcBits(s, rest) ==
      Binary(s.profile, 8) + s.constraints + s.level + UE(s.spsId) + HighFields(s.high) + UE(s.log2MaxFrameNum)
      + PocBits(s.poc, []) + FrameBits(s, rest)
  {
    hide UE, Binary, HighBits, HighFields, PocBits, FrameBits;
    var frame := FrameBits(s, rest);
    var numbering := UE(s.log2MaxFrameNum) + PocBits(s.poc, frame);
    HighOrder(s.high, numbering);
    PocOrder(s.poc, frame);
    var front := Binary(s.profile, 8) + s.constraints + s.level;
    Regrouped(Binary(s.profile, 8), s.constraints, s.level, UE(s.spsId) + (HighFields(s.high) + numbering));
    Regrouped(front, UE(s.spsId), HighFields(s.high), numbering);
    Regrouped(front + UE(s.spsId) + HighFields(s.high), UE(s.log2MaxFrameNum), PocBits(s.poc, []), frame);
  }

  /** The fields of the high profiles. */
  lemma HighOrder(h: Option<High>, rest: Bits)
    ensures HighBits(h, rest) == HighFields(h) + rest
  {
    hide UE, ListsBits;
    match h
    case None =>
      NothingBefore(rest);
    case Some(v) =>
      var planes := if v.chroma == 3 then [v.separatePlanes] else [];
      var lists := if v.scaling.Some? then ListsBits(v.scaling.value, []) else [];
      if v.scaling.Some? {
        ListsFront(v.scaling.value, rest);
      }
      HighNested(v, planes, lists, rest);
      HighJoined(UE(v.chroma), planes, UE(v.lumaDepth), UE(v.chromaDepth), [v.bypass], [v.scaling.Some?], lists, rest);
      hide HighBits;
  }

  function HighFields(h: Option<High>): Bits {
    match h
    case None => []
    case Some(h) =>
      UE(h.chroma) + (if h.chroma == 3 then [h.separatePlanes] else []) + UE(h.lumaDepth) + UE(h.chromaDepth)
      + [h.bypass] + [h.scaling.Some?] + if h.scaling.Some? then ListsBits(h.scaling.value, []) else []
  }

  lemma HighNested(v: High, planes: Bits, lists: Bits, rest: Bits)
    requires planes == (if v.chroma == 3 then [v.separatePlanes] else [])
    requires if v.scaling.Some? then ListsBits(v.scaling.value, rest) == lists + rest else lists == []
    ensures HighBits(Some(v), rest) ==
      UE(v.chroma) + (planes + (UE(v.lumaDepth) + (UE(v.chromaDepth)
        + ([v.bypass] + ([v.scaling.Some?] + (lists + rest))))))
  {
    hide UE, ListsBits;
    NothingBefore(rest);
    NothingBefore(UE(v.lumaDepth) + (UE(v.chromaDepth) + ([v.bypass] + ([v.scaling.Some?] + (lists + rest)))));
  }

  lemma NothingBefore(s: Bits)
    ensures [] + s == s
  {
  }

  lemma HighJoined(a: Bits, b: Bits, c: Bits, d: Bits, e: Bits, f: Bits, g: Bits, rest: Bits)
    ensures a + (b + (c + (d + (e + (f + (g + rest)))))) == a + b + c + d + e + f + g + rest
  {
    Regrouped(d, e, f, g + rest);
    Regrouped(a, b, c, d + e + f + (g + rest));
    assert a + b + c + (d + e + f + (g + rest)) == a + b + c + d + e + f + g + rest;
  }

  lemma {:induction false} ListsFront(ls: seq<ScalingList>, rest: Bits)
    ensures ListsBits(ls, rest) == ListsBits(ls, []) + rest
  {
    hide SEsBits;
    if ls != [] {
      ListsFront(ls[1..], rest);
      if ls[0].Some? {
        SEsFront(ls[0].value, ListsBits(ls[1..], rest));
        SEsFront(ls[0].value, ListsBits(ls[1..], []));
      }
    }
  }

  lemma {:induction false} SEsFront(xs: seq<int>, rest: Bits)
    ensures SEsBits(xs, rest) == SEsBits(xs, []) + rest
  {
    hide SE;
    if xs != [] {
      SEsFront(xs[1..], rest);
    }
  }

  /** What the picture order counts ask for, by their type. */
  lemma PocOrder(p: Poc, rest: Bits)
    ensures PocBits(p, rest) == PocBits(p, []) + rest
    ensures match p
      case Poc0(l) => PocBits(p, []) == UE(0) + UE(l)
      case Poc1(z, a, b, refs) => PocBits(p, []) == UE(1) + [z] + SE(a) + SE(b) + UE(|refs|) + SEsBits(refs, [])
      case Poc2 => PocBits(p, []) == UE(2)
  {
    hide UE, SE, SEsBits;
    if p.Poc1? {
      SEsFront(p.refs, rest);
    }
  }

  /** The reference count, the size in macroblocks and map units, the flags, and the window from left to
      bottom. */
  lemma FrameOrder(s: Avc, rest: Bits)
    ensures FrameBits(s, rest) ==
      UE(s.maxRefs) + [s.gaps] + UE(s.widthMbs) + UE(s.heightMapUnits) + [s.frameMbsOnly]
      + (if s.frameMbsOnly then [] else [s.mbaff]) + [s.direct] + [s.crop.Some?] + Offsets(s.crop) + rest
  {
    hide UE, Offsets, WindowBits;
    var mbaff := if s.frameMbsOnly then [] else [s.mbaff];
    var after := [s.frameMbsOnly] + (mbaff + ([s.direct] + WindowBits(s.crop, rest)));
    assert FrameBits(s, rest) == UE(s.maxRefs) + ([s.gaps] + (UE(s.widthMbs) + (UE(s.heightMapUnits) + after)));
    CropOrder(s.crop, rest);
    hide FrameBits;
    var front := UE(s.maxRefs) + [s.gaps] + UE(s.widthMbs) + UE(s.heightMapUnits);
    Regrouped(UE(s.maxRefs), [s.gaps], UE(s.widthMbs), UE(s.heightMapUnits) + after);
    assert front + after == UE(s.maxRefs) + [s.gaps] + UE(s.widthMbs) + (UE(s.heightMapUnits) + after);
    Regrouped(front, [s.frameMbsOnly], mbaff, [s.direct] + WindowBits(s.crop, rest));
    Regrouped(front + [s.frameMbsOnly] + mbaff, [s.direct], [s.crop.Some?], Offsets(s.crop) + rest);
    assert front + [s.frameMbsOnly] + mbaff + [s.direct] + [s.crop.Some?] + (Offsets(s.crop) + rest)
        == front + [s.frameMbsOnly] + mbaff + [s.direct] + [s.crop.Some?] + Offsets(s.crop) + rest;
  }

  function Offsets(w: Option<Window>): Bits {
    if w.Some? then UE(w.value.left) + UE(w.value.right) + UE(w.value.top) + UE(w.value.bottom) else []
  }

  lemma CropOrder(w: Option<Window>, rest: Bits)
    ensures WindowBits(w, rest) == [w.Some?] + (Offsets(w) + rest)
  {
    hide UE;
  }

  // The parser.

  function SkipFlags(s: Bits, n: nat): Bits
    decreases n
  {
    if n == 0 then s else SkipFlags(TakeFlag(s).rest, n - 1)
  }

  function SkipSEs(s: Bits, n: nat): Bits
    decreases n
  {
    if n == 0 then s else SkipSEs(TakeSE(s).rest, n - 1)
  }

  /** The chroma format, and what follows the fields of the high profiles. */
  function ParseHigh(s: Bits): (nat, Bits) {
    var chroma := TakeUE(s);
    var s := if chroma.value == 3 then TakeFlag(chroma.rest).rest else chroma.rest;
    var s := TakeUE(TakeUE(s).rest).rest;
    var s := TakeFlag(s).rest;
    var scaling := TakeFlag(s);
    (chroma.value, if scaling.value then SkipFlags(scaling.rest, 8) else scaling.rest)
  }

  function ParsePoc(s: Bits): Result<Bits, Error> {
    var pocType := TakeUE(s);
    if pocType.value == 0 then Ok(TakeUE(pocType.rest).rest)
    else if pocType.value == 1 then
      var s := TakeFlag(pocType.rest).rest;
      var s := TakeSE(TakeSE(s).rest).rest;
      var cnt := TakeUE(s);
      if cnt.value > 255 then Err(TooManyRefFrames) else Ok(SkipSEs(cnt.rest, cnt.value))
    else Ok(pocType.rest)
  }

  /** The cropping offsets; all 0 without them. */
  function ParseCrop(s: Bits): Window {
    var flag := TakeFlag(s);
    if !flag.value then Window(0, 0, 0, 0)
    else
      var l := TakeUE(flag.rest);
      var r := TakeUE(l.rest);
      var t := TakeUE(r.rest);
      Window(l.value, r.value, t.value, TakeUE(t.rest).value)
  }

  function ParseFrame(s: Bits, chroma: nat): SPSInfo {
    var s := TakeFlag(TakeUE(s).rest).rest;
    var widthMbs := TakeUE(s);
    var heightMapUnits := TakeUE(widthMbs.rest);
    var frameMbsOnly := TakeFlag(heightMapUnits.rest);
    var s := if frameMbsOnly.value then frameMbsOnly.rest else TakeFlag(frameMbsOnly.rest).rest;
    var s := TakeFlag(s).rest;
    AvcInfo(chroma, widthMbs.value, heightMapUnits.value, frameMbsOnly.value, ParseCrop(s))
  }

  function CropUnitX(chroma: nat): nat {
    if chroma == 0 then 1 else SubWidthC(chroma)
  }

  function CropUnitY(chroma: nat, frameMbsOnly: bool): nat {
    (if chroma == 0 then 1 else SubHeightC(chroma)) * if frameMbsOnly then 1 else 2
  }

  function CodedHeight(heightMapUnits: nat, frameMbsOnly: bool): nat {
    (heightMapUnits + 1) * 16 * if frameMbsOnly then 1 else 2
  }

  function AvcInfo(chroma: nat, widthMbs: nat, heightMapUnits: nat, frameMbsOnly: bool, w: Window): SPSInfo {
    var width := (widthMbs + 1) * 16 % UINT_RANGE;
    var height := CodedHeight(heightMapUnits, frameMbsOnly) % UINT_RANGE;
    SPSInfo(chroma, width, height, (w.left + w.right + w.top + w.bottom) % UINT_RANGE > 0,
            w.left, w.right, w.top, w.bottom, width, height,
            CroppedInRegisters(width, w.left, w.right, CropUnitX(chroma)),
            CroppedInRegisters(height, w.top, w.bottom, CropUnitY(chroma, frameMbsOnly)))
  }

  function ParseAvc(s: Bits): Result<SPSInfo, Error> {
    var profile := TakeBits(s, 8);
    var s := TakeBits(TakeBits(profile.rest, 8).rest, 8).rest;
    var s := TakeUE(s).rest;
    var (chroma, s) := if IsHigh(profile.value) then ParseHigh(s) else (1, s);
    var s :- ParsePoc(TakeUE(s).rest);
    Ok(ParseFrame(s, chroma))
  }

  /** The size that the syntax gives a parameter set. */
  function AvcSize(s: Avc): (nat, nat) {
    var chroma := if s.high.Some? then s.high.value.chroma else 1;
    var w := if s.crop.Some? then s.crop.value else Window(0, 0, 0, 0);
    (Cropped((s.widthMbs + 1) * 16, w.left + w.right, CropUnitX(chroma)),
     Cropped(CodedHeight(s.heightMapUnits, s.frameMbsOnly), w.top + w.bottom, CropUnitY(chroma, s.frameMbsOnly)))
  }

  /** The sizes of section 7.4.2.1.1 of ITU-T H.264: macroblocks of 16 by 16, twice as many rows in a map unit of
      fields; and its crop units, which count twice where chroma is half as wide or half as high, and twice
      again for the rows of fields. */
  lemma AvcSizeTable(s: Avc)
    ensures var w := if s.crop.Some? then s.crop.value else Window(0, 0, 0, 0);
            var (chroma, x, y) := (if s.high.Some? then s.high.value.chroma else 1, w.left + w.right, w.top + w.bottom);
            && AvcDescribed(s).codedWidth == 16 * s.widthMbs + 16
            && AvcDescribed(s).codedHeight == (if s.frameMbsOnly then 16 * s.heightMapUnits + 16
                                               else 32 * s.heightMapUnits + 32)
            && AvcSize(s).0 == AtLeast0(16 * s.widthMbs + 16 - (if chroma == 1 || chroma == 2 then 2 * x else x))
            && AvcSize(s).1 == (if s.frameMbsOnly
                                then AtLeast0(16 * s.heightMapUnits + 16 - (if chroma == 1 then 2 * y else y))
                                else AtLeast0(32 * s.heightMapUnits + 32 - (if chroma == 1 then 4 * y else 2 * y)))
  {
    var w := if s.crop.Some? then s.crop.value else Window(0, 0, 0, 0);
    CroppedTimes((s.widthMbs + 1) * 16, w.left + w.right);
    CroppedTimes(CodedHeight(s.heightMapUnits, s.frameMbsOnly), w.top + w.bottom);
    hide Cropped, AtLeast0;
  }

  lemma CroppedTimes(size: nat, offsets: nat)
    ensures Cropped(size, offsets, 1) == AtLeast0(size - offsets)
    ensures Cropped(size, offsets, 2) == AtLeast0(size - 2 * offsets)
    ensures Cropped(size, offsets, 4) == AtLeast0(size - 4 * offsets)
  {
  }

  /** The profiles whose parameter sets have the fields of `High`. */
  lemma HighProfiles(profile: nat)
    ensures IsHigh(profile) <==>
      (profile == 100 || profile == 110 || profile == 122 || profile == 244
       || profile == 44 || profile == 83 || profile == 86 || profile == 118 || profile == 128)
  {
  }

  /** What there is to know of a parameter set, from its syntax elements. */
  function AvcDescribed(s: Avc): SPSInfo {
    var width, height := (s.widthMbs + 1) * 16, CodedHeight(s.heightMapUnits, s.frameMbsOnly);
    var w := if s.crop.Some? then s.crop.value else Window(0, 0, 0, 0);
    SPSInfo(if s.high.Some? then s.high.value.chroma else 1, width, height, w != Window(0, 0, 0, 0),
            w.left, w.right, w.top, w.bottom, width, height, AvcSize(s).0, AvcSize(s).1)
  }

  // Parsing inverts serializing.

  lemma SmallUE(v: nat, rest: Bits)
    requires v < UE_LIMIT
    ensures TakeUE(UE(v) + rest) == Got(v, true, rest)
  {
    hide TakeUE, UE;
    UERoundTrip(v, rest);
    InRegister(v);
  }

  lemma {:induction false} SkipsBits(s: Bits, n: nat)
    requires n <= |s|
    ensures SkipFlags(s, n) == s[n..]
    decreases n
  {
    if n > 0 {
      SkipsBits(s[1..], n - 1);
    }
  }

  lemma {:induction false} SEsSize(xs: seq<int>, rest: Bits)
    ensures |SEsBits(xs, rest)| >= |xs| + |rest|
  {
    hide SE;
    if xs != [] {
      SESize(xs[0]);
      SEsSize(xs[1..], rest);
    }
  }

  lemma SESize(x: int)
    ensures |SE(x)| >= 1
  {
    UECode(CodeNumber(x));
  }

  /** Lists take one bit each, and more if there is anything in them. */
  lemma {:induction false} ListsSize(ls: seq<ScalingList>, rest: Bits)
    requires forall i | 0 <= i < |ls| :: WellFormedList(ls[i])
    ensures |ListsBits(ls, rest)| >= |ls| + |rest|
    ensures |ListsBits(ls, rest)| == |ls| + |rest| <==> forall i | 0 <= i < |ls| :: ls[i].None?
    ensures (forall i | 0 <= i < |ls| :: ls[i].None?) ==> ListsBits(ls, rest)[|ls|..] == rest
  {
    hide SEsBits;
    if ls != [] {
      ListsSize(ls[1..], rest);
      var more := ListsBits(ls[1..], rest);
      if ls[0].Some? {
        SEsSize(ls[0].value, more);
      } else {
        assert ([false] + more)[|ls|..] == more[|ls| - 1..];
      }
      assert forall i | 0 < i < |ls| :: ls[i] == ls[1..][i - 1];
    }
  }

  /** The fields of the high profiles are passed over exactly if their scaling matrix, if there is one, has eight
      lists none of which is there; else what is read next is not what comes next. */
  lemma HighExactIff(h: High, rest: Bits)
    requires WellFormedHigh(h)
    ensures var (chroma, after) := ParseHigh(HighBits(Some(h), rest));
            chroma == h.chroma && (after == rest <==> Skipped(h))
  {
    hide TakeUE, UE, TakeFlag, SkipFlags, ListsBits;
    var s4 := if h.scaling.Some? then [true] + ListsBits(h.scaling.value, rest) else [false] + rest;
    HighRead(h, s4);
    if h.scaling.Some? {
      var ls := h.scaling.value;
      TakeOne(true, ListsBits(ls, rest));
      ListsSize(ls, rest);
      SkipsBits(ListsBits(ls, rest), 8);
    } else {
      TakeOne(false, rest);
    }
  }

  lemma HighRead(h: High, s4: Bits)
    requires WellFormedHigh(h)
    ensures var s1 := UE(h.lumaDepth) + (UE(h.chromaDepth) + ([h.bypass] + s4));
            var scaling := TakeFlag(s4);
            ParseHigh(UE(h.chroma) + if h.chroma == 3 then [h.separatePlanes] + s1 else s1)
              == (h.chroma, if scaling.value then SkipFlags(scaling.rest, 8) else scaling.rest)
  {
    hide TakeUE, UE, TakeFlag, SkipFlags;
    var s3 := [h.bypass] + s4;
    var s2 := UE(h.chromaDepth) + s3;
    var s1 := UE(h.lumaDepth) + s2;
    SmallUE(h.chroma, if h.chroma == 3 then [h.separatePlanes] + s1 else s1);
    TakeOne(h.separatePlanes, s1);
    SmallUE(h.lumaDepth, s2);
    SmallUE(h.chromaDepth, s3);
    TakeOne(h.bypass, s4);
  }

  lemma {:induction false} SEsRoundTrip(xs: seq<int>, rest: Bits)
    requires forall i | 0 <= i < |xs| :: SmallSE(xs[i])
    ensures SkipSEs(SEsBits(xs, rest), |xs|) == rest
  {
    if xs != [] {
      hide SE, TakeSE;
      SERoundTrip(xs[0], SEsBits(xs[1..], rest));
      SEsRoundTrip(xs[1..], rest);
    }
  }

  lemma PocRoundTrip(p: Poc, rest: Bits)
    requires WellFormedPoc(p)
    ensures ParsePoc(PocBits(p, rest)) == Ok(rest)
  {
    hide TakeUE, UE, TakeFlag, SE, TakeSE, SkipSEs, SEsBits;
    match p
    case Poc0(l) =>
      SmallUE(0, UE(l) + rest);
      SmallUE(l, rest);
    case Poc1(z, a, b, refs) =>
      var s3 := UE(|refs|) + SEsBits(refs, rest);
      var s2 := SE(b) + s3;
      var s1 := SE(a) + s2;
      SmallUE(1, [z] + s1);
      TakeOne(z, s1);
      SERoundTrip(a, s2);
      SERoundTrip(b, s3);
      SmallUE(|refs|, SEsBits(refs, rest));
      SEsRoundTrip(refs, rest);
    case Poc2 =>
      SmallUE(2, rest);
  }

  lemma CropRoundTrip(w: Option<Window>, rest: Bits)
    requires w.Some? ==> WellFormedWindow(w.value)
    ensures ParseCrop(WindowBits(w, rest)) == if w.Some? then w.value else Window(0, 0, 0, 0)
  {
    hide TakeUE, UE, TakeFlag;
    match w
    case None => TakeOne(false, rest);
    case Some(v) =>
      var s4 := UE(v.bottom) + rest;
      var s3 := UE(v.top) + s4;
      var s2 := UE(v.right) + s3;
      TakeOne(true, UE(v.left) + s2);
      SmallUE(v.left, s2);
      SmallUE(v.right, s3);
      SmallUE(v.top, s4);
      SmallUE(v.bottom, rest);
  }

  lemma FrameRoundTrip(s: Avc, rest: Bits, chroma: nat)
    requires WellFormedAvc(s)
    ensures ParseFrame(FrameBits(s, rest), chroma) == AvcInfo(chroma, s.widthMbs, s.heightMapUnits, s.frameMbsOnly,
                                                              if s.crop.Some? then s.crop.value else Window(0, 0, 0, 0))
  {
    hide TakeUE, UE, TakeFlag, ParseCrop, WindowBits, AvcInfo;
    var s6 := WindowBits(s.crop, rest);
    var s5 := [s.direct] + s6;
    var s4 := if s.frameMbsOnly then s5 else [s.mbaff] + s5;
    var s3 := [s.frameMbsOnly] + s4;
    var s2 := UE(s.heightMapUnits) + s3;
    var s1 := UE(s.widthMbs) + s2;
    SmallUE(s.maxRefs, [s.gaps] + s1);
    TakeOne(s.gaps, s1);
    SmallUE(s.widthMbs, s2);
    SmallUE(s.heightMapUnits, s3);
    TakeOne(s.frameMbsOnly, s4);
    TakeOne(s.mbaff, s5);
    TakeOne(s.direct, s6);
    CropRoundTrip(s.crop, rest);
  }

  lemma AvcFieldsRoundTrip(s: Avc, rest: Bits)
    requires WellFormedAvc(s) && ListsSkipped(s)
    ensures ParseAvc(AvcBits(s, rest)) == Ok(AvcInfo(if s.high.Some? then s.high.value.chroma else 1,
      s.widthMbs, s.heightMapUnits, s.frameMbsOnly, if s.crop.Some? then s.crop.value else Window(0, 0, 0, 0)))
  {
    hide TakeUE, UE, TakeBits, Binary, ParseHigh, ParsePoc, PocBits, ParseFrame, FrameBits, AvcInfo;
    var s5 := PocBits(s.poc, FrameBits(s, rest));
    var s4 := UE(s.log2MaxFrameNum) + s5;
    var s3 := HighBits(s.high, s4);
    var s2 := UE(s.spsId) + s3;
    var s1 := s.level + s2;
    assert Pow2(8) == 256;
    TakeBinary(s.profile, 8, s.constraints + s1);
    TakeFixed(s.constraints, s1);
    TakeFixed(s.level, s2);
    SmallUE(s.spsId, s3);
    if s.high.Some? {
      HighExactIff(s.high.value, s4);
    }
    SmallUE(s.log2MaxFrameNum, s5);
    PocRoundTrip(s.poc, FrameBits(s, rest));
    FrameRoundTrip(s, rest, if s.high.Some? then s.high.value.chroma else 1);
  }

  /** Parsing the bits of any well-formed parameter set whose scaling lists are passed over answers its fields and
      its cropped size. */
  lemma AvcRoundTrip(s: Avc, rest: Bits)
    requires WellFormedAvc(s) && ListsSkipped(s)
    ensures ParseAvc(AvcBits(s, rest)) == Ok(AvcDescribed(s))
  {
    hide ParseAvc, AvcBits, CroppedInRegisters, Cropped, WellFormedPoc, WellFormedHigh;
    AvcFieldsRoundTrip(s, rest);
    var chroma := if s.high.Some? then s.high.value.chroma else 1;
    var w := if s.crop.Some? then s.crop.value else Window(0, 0, 0, 0);
    RegistersSuffice((s.widthMbs + 1) * 16, w.left, w.right, CropUnitX(chroma));
    RegistersSuffice(CodedHeight(s.heightMapUnits, s.frameMbsOnly), w.top, w.bottom, CropUnitY(chroma, s.frameMbsOnly));
  }

  // What goes wrong when they are not.

  /** A frame of one macroblock in chroma format 3, with a scaling matrix of twelve lists that are not there. */
  function TwelveLists(): Avc {
    var none: seq<ScalingList> := [None, None, None, None, None, None];
    Avc(244, Zeros(8), Zeros(8), 0, Some(High(3, false, 0, 0, false, Some(none + none))),
        0, Poc0(0), 0, false, 0, 0, true, false, true, None)
  }

  lemma LongCode()
    ensures UE(0) == [true]
    ensures UE(29) == [false, false, false, false, true, true, true, true, false]
  {
    assert Log2(1) == 0 && Binary(1, 1) == [true];
    assert Log2(30) == 4 by { assert Log2(7) == 2; assert Log2(15) == 3; }
    assert Binary(30, 5) == [true, true, true, true, false] by {
      assert Binary(7, 3) == [true, true, true];
    }
  }

  lemma {:induction false} NoLists(ls: seq<ScalingList>, rest: Bits)
    requires forall i | 0 <= i < |ls| :: ls[i].None?
    ensures ListsBits(ls, rest) == Zeros(|ls|) + rest
  {
    hide Zeros;
    if ls == [] {
      assert Zeros(0) + rest == rest;
    } else {
      NoLists(ls[1..], rest);
      OneMoreZero(|ls| - 1, rest);
    }
  }

  lemma OneMoreZero(n: nat, rest: Bits)
    ensures [false] + (Zeros(n) + rest) == Zeros(n + 1) + rest
  {
  }

  /** Four of the twelve flags are left, and with what follows they make one long code. */
  lemma FourLeft()
    ensures var s := TwelveLists();
            ParseHigh(HighBits(s.high, UE(s.log2MaxFrameNum) + PocBits(s.poc, FrameBits(s, []))))
              == (3, UE(29) + [true, true, true, true, false])
  {
    hide UE, TakeUE, TakeFlag, SkipFlags, ListsBits;
    LongCode();
    var s, h := TwelveLists(), TwelveLists().high.value;
    var ls, after := h.scaling.value, UE(0) + PocBits(s.poc, FrameBits(s, []));
    assert after == [true, true, true, true, false, true, true, true, true, false];
    NoLists(ls, after);
    HighRead(h, [true] + ListsBits(ls, after));
    TakeOne(true, ListsBits(ls, after));
    SkipsBits(Zeros(12) + after, 8);
    LeftOfTwelve(after);
  }

  lemma LeftOfTwelve(after: Bits)
    requires after == [true, true, true, true, false, true, true, true, true, false]
    ensures (Zeros(12) + after)[8..] == UE(29) + [true, true, true, true, false]
  {
    hide UE;
    LongCode();
  }

  lemma TwoRowsRead()
    ensures ParsePoc([true, true, true, true, false]) == Ok([true, true, false])
    ensures ParseFrame([true, true, false], 3) == SPSInfo(3, 16, 32, false, 0, 0, 0, 0, 16, 32, 16, 32)
  {
    hide UE, TakeUE, CroppedInRegisters;
    LongCode();
    assert [true, true, true, true, false] == UE(0) + [true, true, true, false];
    SmallUE(0, [true, true, true, false]);
    assert [true, true, true, false] == UE(0) + [true, true, false];
    SmallUE(0, [true, true, false]);
    assert [true, true, false] == UE(0) + [true, false];
    SmallUE(0, [true, false]);
    assert [true, false][1..] == [false];
    NoCode();
    RegistersSuffice(16, 0, 0, 1);
    RegistersSuffice(32, 0, 0, 2);
  }

  /** It is read as two macroblocks high. */
  lemma TwelveListsMisread()
    ensures WellFormedAvc(TwelveLists()) && AvcSize(TwelveLists()) == (16, 16)
    ensures ParseAvc(AvcBits(TwelveLists(), [])) == Ok(SPSInfo(3, 16, 32, false, 0, 0, 0, 0, 16, 32, 16, 32))
  {
    hide UE, TakeUE, TakeBits, Binary, Zeros, ParseHigh, HighBits, ParsePoc, PocBits, ParseFrame, FrameBits;
    var s := TwelveLists();
    var s3 := HighBits(s.high, UE(s.log2MaxFrameNum) + PocBits(s.poc, FrameBits(s, [])));
    var s2 := UE(0) + s3;
    assert Pow2(8) == 256;
    TakeBinary(244, 8, s.constraints + (s.level + s2));
    TakeFixed(s.constraints, s.level + s2);
    TakeFixed(s.level, s2);
    SmallUE(0, s3);
    FourLeft();
    SmallUE(29, [true, true, true, true, false]);
    TwoRowsRead();
  }

  // What the parser refuses.

  /** The only refusal is of more than 255 reference frames in a picture order count cycle, whatever follows. */
  lemma LongCycleIsRefused(z: bool, a: int, b: int, count: nat, rest: Bits)
    requires SmallSE(a) && SmallSE(b) && count < UE_LIMIT
    ensures ParsePoc(UE(1) + ([z] + (SE(a) + (SE(b) + (UE(count) + rest))))) == Err(TooManyRefFrames) <==> count > 255
  {
    hide TakeUE, UE, TakeFlag, SE, TakeSE, SkipSEs;
    var s3 := UE(count) + rest;
    var s2 := SE(b) + s3;
    var s1 := SE(a) + s2;
    SmallUE(1, [z] + s1);
    TakeOne(z, s1);
    SERoundTrip(a, s2);
    SERoundTrip(b, s3);
    SmallUE(count, rest);
  }

  lemma RefusesLittle(s: Bits)
    ensures ParseAvc(s).Err? ==> ParseAvc(s).error == TooManyRefFrames
  {
    hide TakeUE, TakeFlag, TakeBits, TakeSE, SkipSEs, ParseHigh, ParseFrame;
  }

  /** A parameter set that is cut short is not refused: fields that are missing count as 0. One without any
      field gives one macroblock by two. */
  lemma NothingIsAccepted()
    ensures ParseAvc([]) == Ok(SPSInfo(1, 16, 32, false, 0, 0, 0, 0, 16, 32, 16, 32))
  {
    hide CroppedInRegisters;
    NoCode();
    RegistersSuffice(16, 0, 0, 2);
    RegistersSuffice(32, 0, 0, 4);
  }

  lemma NoCode()
    ensures TakeUE([]) == Got(0, false, []) && TakeFlag([]) == Got(false, false, [])
    ensures TakeUE([false]) == Got(0, false, [])
    ensures TakeBits([], 8) == Got(0, false, [])
  {
  }
}
