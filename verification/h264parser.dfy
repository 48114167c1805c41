/** The parser of pkg/codec/h26xhelper.go for H.264, read by read. Errors of single reads are ignored. */
module H264Parser {
  import opened Wrappers
  import opened BitStream
  import opened BitReader
  import opened NalUnit
  import opened H265Syntax
  import opened H264Syntax

  /** The fields of the high profiles. */
  method ReadHigh(br: BitReader) returns (chroma: nat)
    requires br.Valid()
    modifies br
    ensures br.Valid() && (chroma, br.Rest()) == ParseHigh(old(br.Rest())) && chroma < UINT_RANGE
  {
    hide TakeUE, TakeFlag;
    var unused, ok;
    chroma, ok := br.ReadUE();
    var flag;
    if chroma == 3 {
      flag, ok := br.ReadFlag();  // separate_colour_plane_flag
    }
    unused, ok := br.ReadUE();  // bit_depth_luma_minus8
    unused, ok := br.ReadUE();  // bit_depth_chroma_minus8
    flag, ok := br.ReadFlag();  // qpprime_y_zero_transform_bypass_flag
    flag, ok := br.ReadFlag();  // seq_scaling_matrix_present_flag
    if flag {
      ghost var s := br.Rest();
      for i := 0 to 8
        invariant br.Valid() && SkipFlags(s, 8) == SkipFlags(br.Rest(), 8 - i)
      {
        flag, ok := br.ReadFlag();
      }
    }
  }

  method ReadPoc(br: BitReader) returns (err: Option<Error>)
    requires br.Valid()
    modifies br
    ensures br.Valid()
    ensures match ParsePoc(old(br.Rest()))
            case Err(e) => err == Some(e)
            case Ok(s) => err == None && br.Rest() == s
  {
    hide TakeUE, TakeFlag, TakeSE;
    var pocType, ok := br.ReadUE();
    if pocType == 0 {
      var unused;
      unused, ok := br.ReadUE();
    } else if pocType == 1 {
      var flag, offset, cnt;
      flag, ok := br.ReadFlag();
      offset, ok := br.ReadSE();
      offset, ok := br.ReadSE();
      cnt, ok := br.ReadUE();
      if cnt > 255 {
        return Some(TooManyRefFrames);
      }
      ghost var s := br.Rest();
      for i := 0 to cnt
        invariant br.Valid() && SkipSEs(s, cnt) == SkipSEs(br.Rest(), cnt - i)
      {
        offset, ok := br.ReadSE();
      }
    }
    return None;
  }

  method ReadCrop(br: BitReader) returns (w: Window)
    requires br.Valid()
    modifies br
    ensures br.Valid() && w == ParseCrop(old(br.Rest()))
    ensures w.left < UINT_RANGE && w.right < UINT_RANGE && w.top < UINT_RANGE && w.bottom < UINT_RANGE
  {
    hide TakeUE, TakeFlag;
    var frameCropping, ok := br.ReadFlag();
    var left, right, top, bottom := 0, 0, 0, 0;
    if frameCropping {
      left, ok := br.ReadUE();
      right, ok := br.ReadUE();
      top, ok := br.ReadUE();
      bottom, ok := br.ReadUE();
    }
    return Window(left, right, top, bottom);
  }

  method ReadFrame(br: BitReader, chroma: nat) returns (info: SPSInfo)
    requires br.Valid() && chroma < UINT_RANGE
    modifies br
    ensures br.Valid() && info == ParseFrame(old(br.Rest()), chroma)
  {
    hide TakeUE, TakeFlag, ParseCrop, CroppedInRegisters;
    var unused, ok := br.ReadUE();  // max_num_ref_frames
    var flag;
    flag, ok := br.ReadFlag();  // gaps_in_frame_num_value_allowed_flag
    var wMbs, hMapUnits, frameMbsOnly;
    wMbs, ok := br.ReadUE();
    hMapUnits, ok := br.ReadUE();
    frameMbsOnly, ok := br.ReadFlag();
    if !frameMbsOnly {
      flag, ok := br.ReadFlag();  // mb_adaptive_frame_field_flag
    }
    flag, ok := br.ReadFlag();  // direct_8x8_inference_flag
    var w := ReadCrop(br);
    var width := (wMbs + 1) * 16 % UINT_RANGE;
    var height := (hMapUnits + 1) * 16;
    if !frameMbsOnly {
      height := height * 2;
    }
    height := height % UINT_RANGE;
    var cropUnitX := SubWidthC(chroma);
    var cropUnitY := SubHeightC(chroma);
    if chroma == 0 {
      cropUnitX := 1;
      cropUnitY := if !frameMbsOnly then 2 else 1;
    } else if !frameMbsOnly {
      cropUnitY := cropUnitY * 2;
    }
    var displayWidth := CroppedInRegisters(width, w.left, w.right, cropUnitX);
    var displayHeight := CroppedInRegisters(height, w.top, w.bottom, cropUnitY);
    return SPSInfo(chroma, width, height, (w.left + w.right + w.top + w.bottom) % UINT_RANGE > 0,
                   w.left, w.right, w.top, w.bottom, width, height, displayWidth, displayHeight);
  }

  /** All that is read. */
  method ReadFields(br: BitReader) returns (r: Result<SPSInfo, Error>)
    requires br.Valid()
    modifies br
    ensures br.Valid() && r == ParseAvc(old(br.Rest()))
  {
    hide ParseHigh, ParsePoc, ParseFrame, TakeBits, TakeUE;
    var profileIDC, ok := br.ReadBits(8);
    var unused;
    unused, ok := br.ReadBits(8);  // constraint flags
    unused, ok := br.ReadBits(8);  // level_idc
    unused, ok := br.ReadUE();  // seq_parameter_set_id
    var chroma := 1;
    if IsHigh(profileIDC) {
      chroma := ReadHigh(br);
    }
    unused, ok := br.ReadUE();  // log2_max_frame_num_minus4
    var err := ReadPoc(br);
    if err.Some? {
      return Err(err.value);
    }
    var info := ReadFrame(br, chroma);
    return Ok(info);
  }

  /** What the parser answers for a NAL unit. */
  ghost function Parsed(nal: seq<byte>): Result<SPSInfo, Error> {
    if |nal| < 1 then Err(EmptyNal)
    else
      var nal := StripStartCode(nal);
      if |nal| < 1 then Err(EmptyNal)
      else if nal[0] % 32 != 7 then Err(NotSps(nal[0] % 32))
      else ParseAvc(BytesToBits(Removed(nal[1..], |nal| - 1)))
  }

  method ParseH264SPS(nal: seq<byte>) returns (r: Result<SPSInfo, Error>)
    ensures r == Parsed(nal)
  {
    hide ParseAvc, BytesToBits, Removed, StripStartCode;
    if |nal| < 1 {
      return Err(EmptyNal);
    }
    var stripped := StripStartCode(nal);
    if |stripped| < 1 {
      return Err(EmptyNal);
    }
    var nalType := stripped[0] % 32;
    if nalType != 7 {
      return Err(NotSps(nalType));
    }
    var rbsp := RemoveEmulationPreventionBytes(stripped[1..]);
    var br := new BitReader(rbsp);
    r := ReadFields(br);
  }

  /** End to end: any well-formed parameter set whose scaling lists are passed over, behind any SPS NAL header,
      protected against start codes, and with or without one in front, parses to exactly its fields and its
      cropped size. */
  lemma ParsesEveryAvc(s: Avc, rest: Bits, header: byte, c: StartCode)
    requires WellFormedAvc(s) && ListsSkipped(s) && header % 32 == 7 && |AvcBits(s, rest)| % 8 == 0
    ensures Parsed(CodeBytes(c) + Inserted([header] + Pack(AvcBits(s, rest)))) == Ok(AvcDescribed(s))
  {
    hide ParseAvc, AvcBits, WellFormedAvc, ListsSkipped, AvcDescribed;
    hide BytesToBits, Pack, Inserted, WriteAll, StripStartCode, Removed;
    var rbsp := Pack(AvcBits(s, rest));
    HeaderStays(header, rbsp);
    StripIsExact(c, [header] + rbsp);
    RemoveInvertsInsert(rbsp);
    PackRoundTrip(AvcBits(s, rest));
    AvcRoundTrip(s, rest);
    var nal := Inserted([header] + rbsp);
    assert nal[1..] == Inserted(rbsp);
    assert |CodeBytes(c) + nal| >= 1;
  }

  lemma HeaderStays(h: byte, data: seq<byte>)
    requires h != 0
    ensures Inserted([h] + data) == [h] + Inserted(data)
  {
    InsertAfterHeader(h, data);
  }
}
