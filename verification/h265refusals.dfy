/** Parameter sets of H.265 that are cut short, or of another kind. The parser of pkg/codec/h26xhelper.go
    gives up at the first read that lacks bits. */
module H265Refusals {
  import opened Wrappers
  import opened BitStream
  import opened H265Syntax

  /** `b` answers what `a` does, with `t` more left, unless `a` lacked bits. */
  ghost predicate Extends<T>(a: Result<(T, Bits), Error>, b: Result<(T, Bits), Error>, t: Bits) {
    match a
    case Err(e) => e == NotEnoughBits || b == Err(e)
    case Ok((v, rest)) => b == Ok((v, rest + t))
  }

  ghost predicate SkipExtends(a: Result<Bits, Error>, b: Result<Bits, Error>, t: Bits) {
    match a
    case Err(e) => e == NotEnoughBits || b == Err(e)
    case Ok(rest) => b == Ok(rest + t)
  }

  lemma BitsMore(s: Bits, t: Bits, n: nat)
    ensures Extends(Need(TakeBits(s, n)), Need(TakeBits(s + t, n)), t)
  {
    if n <= |s| {
      assert (s + t)[..n] == s[..n] && (s + t)[n..] == s[n..] + t;
    }
  }

  lemma FlagMore(s: Bits, t: Bits)
    ensures Extends(Need(TakeFlag(s)), Need(TakeFlag(s + t)), t)
  {
    if 1 <= |s| {
      assert (s + t)[1..] == s[1..] + t;
    }
  }

  lemma UEMore(s: Bits, t: Bits)
    ensures Extends(Need(TakeUE(s)), Need(TakeUE(s + t)), t)
  {
    if TakeUE(s).ok {
      hide TakeUE, UE;
      TakeUEIsCode(s);
      var v: nat :| s == UE(v) + TakeUE(s).rest && TakeUE(s).value == v % UINT_RANGE;
      assert s + t == UE(v) + (TakeUE(s).rest + t);
      UERoundTrip(v, TakeUE(s).rest + t);
    }
  }

  lemma HeaderMore(s: Bits, t: Bits)
    ensures Extends(ParseHeader(s), ParseHeader(s + t), t)
  {
    hide TakeBits;
    BitsMore(s, t, 1);
    var s1 := TakeBits(s, 1).rest;
    BitsMore(s1, t, 6);
    var s2 := TakeBits(s1, 6).rest;
    BitsMore(s2, t, 6);
    var s3 := TakeBits(s2, 6).rest;
    BitsMore(s3, t, 3);
    var s4 := TakeBits(s3, 3).rest;
    BitsMore(s4, t, 4);
    var s5 := TakeBits(s4, 4).rest;
    BitsMore(s5, t, 3);
    BitsMore(TakeBits(s5, 3).rest, t, 1);
  }

  lemma GeneralProfileMore(s: Bits, t: Bits)
    ensures SkipExtends(ParseGeneralProfile(s), ParseGeneralProfile(s + t), t)
  {
    hide TakeBits;
    BitsMore(s, t, 8);
    var s1 := TakeBits(s, 8).rest;
    BitsMore(s1, t, 32);
    var s2 := TakeBits(s1, 32).rest;
    BitsMore(s2, t, 16);
    var s3 := TakeBits(s2, 16).rest;
    BitsMore(s3, t, 32);
    BitsMore(TakeBits(s3, 32).rest, t, 8);
  }

  lemma {:induction false} FlagsMore(s: Bits, t: Bits, n: nat)
    ensures Extends(ParseFlags(s, n), ParseFlags(s + t, n), t)
    decreases n
  {
    hide TakeFlag;
    if n > 0 {
      FlagMore(s, t);
      var s1 := TakeFlag(s).rest;
      FlagMore(s1, t);
      FlagsMore(TakeFlag(s1).rest, t, n - 1);
    }
  }

  lemma {:induction false} PairsMore(s: Bits, t: Bits, n: nat)
    ensures SkipExtends(SkipPairs(s, n), SkipPairs(s + t, n), t)
    decreases n
  {
    hide TakeBits;
    if n > 0 {
      BitsMore(s, t, 2);
      PairsMore(TakeBits(s, 2).rest, t, n - 1);
    }
  }

  lemma SubLayerMore(s: Bits, t: Bits, flags: (bool, bool))
    ensures SkipExtends(ParseSubLayer(s, flags), ParseSubLayer(s + t, flags), t)
  {
    hide TakeBits;
    BitsMore(s, t, 8);
    var s1 := TakeBits(s, 8).rest;
    BitsMore(s1, t, 32);
    var s2 := TakeBits(s1, 32).rest;
    BitsMore(s2, t, 48);
    BitsMore(TakeBits(s2, 48).rest, t, 8);
  }

  lemma {:induction false} SubLayersMore(s: Bits, t: Bits, flags: seq<(bool, bool)>)
    ensures SkipExtends(ParseSubLayers(s, flags), ParseSubLayers(s + t, flags), t)
    decreases |flags|
  {
    hide ParseSubLayer;
    if flags != [] {
      SubLayerMore(s, t, flags[0]);
      if ParseSubLayer(s, flags[0]).Ok? {
        SubLayersMore(ParseSubLayer(s, flags[0]).value, t, flags[1..]);
      }
    }
  }

  lemma PtlMore(s: Bits, t: Bits, n: nat)
    ensures SkipExtends(ParsePtl(s, n), ParsePtl(s + t, n), t)
  {
    hide ParseGeneralProfile, ParseFlags, SkipPairs, ParseSubLayers;
    GeneralProfileMore(s, t);
    var p := ParseGeneralProfile(s);
    if p.Ok? {
      FlagsMore(p.value, t, n);
      var f := ParseFlags(p.value, n);
      if f.Ok? {
        var k := if 0 < n < 8 then 8 - n else 0;
        PairsMore(f.value.1, t, k);
        if SkipPairs(f.value.1, k).Ok? {
          SubLayersMore(SkipPairs(f.value.1, k).value, t, f.value.0);
        }
      }
    }
  }

  lemma WindowMore(s: Bits, t: Bits)
    ensures Extends(ParseWindow(s), ParseWindow(s + t), t)
  {
    hide TakeFlag, TakeUE;
    FlagMore(s, t);
    var s1 := TakeFlag(s).rest;
    UEMore(s1, t);
    var s2 := TakeUE(s1).rest;
    UEMore(s2, t);
    var s3 := TakeUE(s2).rest;
    UEMore(s3, t);
    UEMore(TakeUE(s3).rest, t);
  }

  lemma CoreMore(s: Bits, t: Bits)
    ensures Extends(ParseCore(s), ParseCore(s + t), t)
  {
    hide TakeFlag, TakeUE, ParseWindow, Info;
    UEMore(s, t);
    var s1 := TakeUE(s).rest;
    UEMore(s1, t);
    var s2 := TakeUE(s1).rest;
    FlagMore(s2, t);
    var s3 := if TakeUE(s1).value == 3 then TakeFlag(s2).rest else s2;
    UEMore(s3, t);
    var s4 := TakeUE(s3).rest;
    UEMore(s4, t);
    WindowMore(TakeUE(s4).rest, t);
  }

  /** Whatever is parsed, bits that follow do not change the answer; and what is refused for any other reason
      than a lack of bits stays refused for it. */
  lemma SpsMore(s: Bits, t: Bits)
    ensures Extends(ParseSps(s), ParseSps(s + t), t)
  {
    hide ParseHeader, ParsePtl, ParseCore;
    HeaderMore(s, t);
    var h := ParseHeader(s);
    if h.Ok? {
      PtlMore(h.value.1, t, h.value.0);
      if ParsePtl(h.value.1, h.value.0).Ok? {
        CoreMore(ParsePtl(h.value.1, h.value.0).value, t);
      }
    }
  }

  /** A parameter set that ends anywhere before its last field is refused, and always for that reason. */
  lemma TruncatedIsRefused(s: Sps, k: nat)
    requires WellFormed(s) && k < |SpsBits(s, [])|
    ensures ParseSps(SpsBits(s, [])[..k]) == Err(NotEnoughBits)
  {
    hide ParseSps, SpsBits, WellFormed, Described;
    var whole := SpsBits(s, []);
    assert whole[..k] + whole[k..] == whole;
    SpsMore(whole[..k], whole[k..]);
    SpsRoundTrip(s, []);
  }

  /** A NAL unit of any other type than 33 is refused, whatever follows its header. */
  lemma OtherTypeIsRefused(forbidden: bool, nalType: nat, layerId: Bits, temporalId: Bits, rest: Bits)
    requires nalType < 64 && nalType != 33 && |layerId| == 6 && |temporalId| == 3
    ensures ParseSps([forbidden] + (Binary(nalType, 6) + (layerId + (temporalId + rest)))) == Err(NotSps(nalType))
  {
    hide TakeBits;
    var s2 := layerId + (temporalId + rest);
    FixedField([forbidden], 1, Binary(nalType, 6) + s2);
    assert Pow2(6) == 64;
    TakeBinary(nalType, 6, s2);
    FixedField(layerId, 6, temporalId + rest);
    FixedField(temporalId, 3, rest);
  }
}
