/** The bit reader of pkg/codec/h26xhelper.go, proved against the bit strings of module `BitStream`. */
module BitReader {
  import opened Wrappers
  import opened BitStream

  /** (b >> k) & 1 */
  function BitOf(b: byte, k: nat): nat {
    b / Pow2(k) % 2
  }

  lemma BitOfPos(data: seq<byte>, pos: nat)
    requires pos < 8 * |data|
    ensures BitOf(data[pos / 8], 7 - pos % 8) == if BytesToBits(data)[pos] then 1 else 0
  {
    BitAt(data, pos / 8, pos % 8);
    BinaryAt(data[pos / 8], 8, pos % 8);
  }

  class BitReader {
    const data: seq<byte>
    var pos: nat  // bit position

    constructor (data: seq<byte>)
      ensures Valid() && this.data == data && Rest() == BytesToBits(data)
    {
      this.data := data;
      pos := 0;
    }

    ghost predicate Valid()
      reads this
    {
      pos <= 8 * |data|
    }

    /** The bits not read yet. */
    ghost function Rest(): Bits
      requires Valid()
      reads this
    {
      BytesToBits(data)[pos..]
    }

    function Left(): int
      reads this
    {
      |data| * 8 - pos
    }

    method ReadBits(n: int) returns (v: nat, ok: bool)
      requires Valid()
      modifies this
      ensures Valid() && Got(v, ok, Rest()) == TakeBits(old(Rest()), n)
    {
      if n < 0 || Left() < n {
        return 0, false;
      }
      hide Shifted, BytesToBits, BitOf, ShiftIn;
      v := 0;
      ghost var start := pos;
      EmptyRegister(BytesToBits(data)[start..start]);
      for i := 0 to n
        invariant Valid() && pos == start + i && start + n <= 8 * |data|
        invariant v == Shifted(BytesToBits(data)[start..pos])
      {
        var bytePos := pos / 8;
        var bitPos := 7 - pos % 8;
        var bit := BitOf(data[bytePos], bitPos);
        OneMore(start, pos);
        v := ShiftIn(v, bit);
        pos := pos + 1;
      }
      ok := true;
      assert old(Rest())[..n] == BytesToBits(data)[start..pos];
    }

    lemma EmptyRegister(s: Bits)
      requires s == []
      ensures Shifted(s) == 0
    {
    }

    lemma OneMore(start: nat, pos: nat)
      requires start <= pos < 8 * |data|
      ensures Shifted(BytesToBits(data)[start..pos + 1])
           == ShiftIn(Shifted(BytesToBits(data)[start..pos]), BitOf(data[pos / 8], 7 - pos % 8))
    {
      hide ShiftIn, BitOf, BytesToBits;
      BitOfPos(data, pos);
      assert BytesToBits(data)[start..pos + 1][..pos - start] == BytesToBits(data)[start..pos];
    }

    method ReadFlag() returns (b: bool, ok: bool)
      requires Valid()
      modifies this
      ensures Valid() && Got(b, ok, Rest()) == TakeFlag(old(Rest()))
    {
      ghost var s := Rest();
      var v;
      v, ok := ReadBits(1);
      b := v == 1;
      if ok {
        OneBitValue(s);
      }
    }

    lemma OneBitValue(s: Bits)
      requires s != []
      ensures Shifted(s[..1]) == if s[0] then 1 else 0
    {
      assert s[..1][..0] == [];
    }

    /** Reads up to the stop bit. */
    method SkipZeros() returns (zeros: nat, ok: bool)
      requires Valid()
      modifies this
      ensures Valid() && zeros == LeadingZeros(old(Rest())) && ok == (zeros < |old(Rest())|)
      ensures Rest() == if ok then old(Rest())[zeros + 1..] else []
    {
      ghost var s := Rest();
      zeros := 0;
      while true
        invariant Valid() && zeros <= |s| && Rest() == s[zeros..]
        invariant LeadingZeros(s) == zeros + LeadingZeros(s[zeros..])
        decreases |s| - zeros
      {
        assert zeros < |s| ==> s[zeros..][1..] == s[zeros + 1..] && s[zeros..][0] == s[zeros];
        var bit;
        bit, ok := ReadFlag();
        if !ok {
          return;
        }
        if bit {
          return;
        }
        zeros := zeros + 1;
      }
    }

    /** Unsigned Exp-Golomb. */
    method ReadUE() returns (v: nat, ok: bool)
      requires Valid()
      modifies this
      ensures Valid() && Got(v, ok, Rest()) == TakeUE(old(Rest())) && v < UINT_RANGE
    {
      hide Shifted, LeadingZeros, TakeBits, CodeValue;
      ghost var s := Rest();
      var zeros;
      zeros, ok := SkipZeros();
      if !ok {
        return 0, false;
      }
      if zeros == 0 {
        NoInfo(s);
        return 0, true;
      }
      var info;
      info, ok := ReadBits(zeros);
      if !ok {
        return 0, false;
      }
      v := CodeValue(zeros, info);
    }

    lemma NoInfo(s: Bits)
      requires s != [] && LeadingZeros(s) == 0
      ensures TakeUE(s) == Got(0, true, s[1..])
    {
      assert s[1..][..0] == [] && s[1..][0..] == s[1..];
    }

    method ReadSE() returns (v: int, ok: bool)
      requires Valid()
      modifies this
      ensures Valid() && Got(v, ok, Rest()) == TakeSE(old(Rest()))
    {
      hide TakeUE;
      var ueVal;
      ueVal, ok := ReadUE();
      if !ok {
        return 0, false;
      }
      var k := ToInt(ueVal);
      v := if k % 2 == 0 then -(k / 2) else WrapInt(k + 1) / 2;
    }
  }
}
