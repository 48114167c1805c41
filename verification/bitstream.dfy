/** Bit strings, most significant bit first, and the fixed-length and Exp-Golomb codes on them
    (section 9.2 of ITU-T H.265, section 9.1 of ITU-T H.264). */
module BitStream {
  import opened Wrappers
  import opened Modular

  type Bits = seq<bool>

  const UINT_RANGE: nat := 0x1_0000_0000_0000_0000

  function Pow2(n: nat): (p: nat)
    ensures p >= 1
  {
    if n == 0 then 1 else 2 * Pow2(n - 1)
  }

  /** The number that the bits spell. */
  function Value(s: Bits): nat {
    if s == [] then 0 else 2 * Value(s[..|s| - 1]) + if s[|s| - 1] then 1 else 0
  }

  /** (v << 1) | bit */
  function ShiftIn(v: nat, bit: nat): (r: nat)
    ensures r < UINT_RANGE
  {
    (2 * v + bit) % UINT_RANGE
  }

  /** The same, in a 64-bit register into which the bits are shifted one by one. */
  function Shifted(s: Bits): (v: nat)
    ensures v < UINT_RANGE
  {
    if s == [] then 0 else ShiftIn(Shifted(s[..|s| - 1]), if s[|s| - 1] then 1 else 0)
  }

  /** `v` in `n` bits. */
  function Binary(v: nat, n: nat): (s: Bits)
    ensures |s| == n
  {
    if n == 0 then [] else Binary(v / 2, n - 1) + [v % 2 == 1]
  }

  lemma {:induction false} BinaryValue(v: nat, n: nat)
    requires v < Pow2(n)
    ensures Value(Binary(v, n)) == v
  {
    if n > 0 {
      BinaryValue(v / 2, n - 1);
      assert Binary(v, n)[..n - 1] == Binary(v / 2, n - 1);
    }
  }

  lemma ShiftInWraps(v: nat, bit: nat)
    ensures ShiftIn(v % UINT_RANGE, bit) == (2 * v + bit) % UINT_RANGE
  {
    var x := 2 * (v % UINT_RANGE) + bit;
    SameRemainder(UINT_RANGE, (2 * v + bit) / UINT_RANGE, (2 * v + bit) % UINT_RANGE,
                  2 * (v / UINT_RANGE) + x / UINT_RANGE, x % UINT_RANGE);
  }

  /** The register holds the number that the bits spell, as far as it is wide. */
  lemma {:induction false} ShiftedWraps(s: Bits)
    ensures Shifted(s) == Value(s) % UINT_RANGE
  {
    if s != [] {
      ShiftedWraps(s[..|s| - 1]);
      ShiftInWraps(Value(s[..|s| - 1]), if s[|s| - 1] then 1 else 0);
    }
  }

  lemma {:induction false} ValueBound(s: Bits)
    ensures Value(s) < Pow2(|s|)
  {
    if s != [] {
      ValueBound(s[..|s| - 1]);
    }
  }

  lemma ShiftedValue(s: Bits)
    requires |s| <= 64
    ensures Shifted(s) == Value(s) < Pow2(|s|)
  {
    hide Shifted, Value;
    ShiftedWraps(s);
    ValueBound(s);
    Pow2Monotone(|s|, 64);
    Pow2Of64();
  }

  lemma {:induction false} Pow2Monotone(m: nat, n: nat)
    requires m <= n
    ensures Pow2(m) <= Pow2(n)
  {
    if m < n {
      Pow2Monotone(m, n - 1);
    }
  }

  lemma Pow2Of64()
    ensures Pow2(64) == UINT_RANGE
  {
    assert Pow2(8) == 256;
    hide Pow2;
    Pow2Add(8, 8);
    Pow2Add(16, 16);
    Pow2Add(32, 32);
  }

  lemma {:induction false} Pow2Add(m: nat, n: nat)
    ensures Pow2(m + n) == Pow2(m) * Pow2(n)
  {
    if n > 0 {
      Pow2Add(m, n - 1);
      Regroup(Pow2(m), Pow2(n - 1));
    }
  }

  lemma Regroup(a: nat, b: nat)
    ensures 2 * (a * b) == a * (2 * b)
  {
  }

  /** A read: the value, whether it succeeded, and the bits after it. A failed read has the value 0. */
  datatype Got<T> = Got(value: T, ok: bool, rest: Bits)

  function TakeBits(s: Bits, n: int): Got<nat> {
    if n < 0 || |s| < n then Got(0, false, s) else Got(Shifted(s[..n]), true, s[n..])
  }

  function TakeFlag(s: Bits): Got<bool> {
    if |s| < 1 then Got(false, false, s) else Got(s[0], true, s[1..])
  }

  /** The number of zeros before the first one bit, or of all bits if there is none. */
  function LeadingZeros(s: Bits): (n: nat)
    ensures n <= |s|
  {
    if s == [] || s[0] then 0 else 1 + LeadingZeros(s[1..])
  }

  lemma {:induction false} ZerosAhead(s: Bits)
    ensures var n := LeadingZeros(s);
            (n < |s| ==> s[n]) && forall i | 0 <= i < n :: !s[i]
  {
    if s != [] && !s[0] {
      ZerosAhead(s[1..]);
      var n := LeadingZeros(s);
      assert n == 1 + LeadingZeros(s[1..]);
      forall i | 0 <= i < n
        ensures !s[i]
      {
        assert i > 0 ==> s[i] == s[1..][i - 1];
      }
    }
  }

  /** An unsigned Exp-Golomb code: as many bits follow the first one bit as zeros precede it. */
  function TakeUE(s: Bits): (g: Got<nat>)
    ensures g.value < UINT_RANGE
  {
    var zeros := LeadingZeros(s);
    if zeros == |s| then Got(0, false, [])
    else
      var info := TakeBits(s[zeros + 1..], zeros);
      if !info.ok then Got(0, false, info.rest)
      else Got(CodeValue(zeros, info.value), true, info.rest)
  }

  /** (1 << zeros) - 1 + info, in the register. */
  function CodeValue(zeros: nat, info: nat): (v: nat)
    ensures v < UINT_RANGE
  {
    (UINT_RANGE + Power(zeros) - 1 + info) % UINT_RANGE
  }

  /** 1 << k in the register. */
  function Power(k: nat): nat {
    if k < 64 then Pow2(k) else 0
  }

  /** The code of `v`: its successor in binary, after one zero less than it has bits. */
  function UE(v: nat): Bits {
    var k := Log2(v + 1);
    Zeros(k) + Binary(v + 1, k + 1)
  }

  function Zeros(k: nat): (s: Bits)
    ensures |s| == k && forall i | 0 <= i < k :: !s[i]
  {
    seq(k, _ => false)
  }

  function Log2(m: nat): (k: nat)
    requires m > 0
    ensures Pow2(k) <= m < Pow2(k + 1)
  {
    if m == 1 then 0 else 1 + Log2(m / 2)
  }

  lemma {:induction false} BinaryFront(v: nat, n: nat)
    requires Pow2(n) <= v < Pow2(n + 1)
    ensures Binary(v, n + 1) == [true] + Binary(v - Pow2(n), n)
  {
    if n == 0 {
      assert Binary(v, 1) == Binary(v / 2, 0) + [true] == [true] + Binary(0, 0);
    } else {
      BinaryFront(v / 2, n - 1);
      assert (v - Pow2(n)) / 2 == v / 2 - Pow2(n - 1);
    }
  }

  lemma {:induction false} ZerosLead(k: nat, s: Bits)
    requires s != [] && s[0]
    ensures LeadingZeros(Zeros(k) + s) == k
  {
    if k == 0 {
      assert Zeros(0) + s == s;
    } else {
      ZerosLead(k - 1, s);
      assert (Zeros(k) + s)[1..] == Zeros(k - 1) + s;
    }
  }

  /** Reading the Exp-Golomb code of any number gives it back, as far as the register is wide, and consumes
      exactly the code. */
  lemma UERoundTrip(v: nat, rest: Bits)
    ensures TakeUE(UE(v) + rest) == Got(v % UINT_RANGE, true, rest)
  {
    hide TakeUE, CodeValue, Binary, Shifted, Value, Zeros;
    var k := Log2(v + 1);
    var info := Binary(v + 1 - Pow2(k), k);
    BinaryFront(v + 1, k);
    assert UE(v) + rest == Zeros(k) + ([true] + info + rest);
    TakeCode(info, rest);
    BinaryValue(v + 1 - Pow2(k), k);
    ShiftedWraps(info);
    CodeValueOf(v, k);
  }

  lemma InRegister(v: nat)
    requires v < UINT_RANGE
    ensures v % UINT_RANGE == v
  {
  }

  /** What the code of `v` looks like: `v` + 1 without leading zeros, after one zero less than it has bits. */
  lemma UECode(v: nat)
    ensures var k := LeadingZeros(UE(v)); |UE(v)| == 2 * k + 1 && Value(UE(v)[k..]) == v + 1
  {
    hide Binary, Value, Zeros;
    var k := Log2(v + 1);
    BinaryFront(v + 1, k);
    ZerosLead(k, Binary(v + 1, k + 1));
    BinaryValue(v + 1, k + 1);
    assert (Zeros(k) + Binary(v + 1, k + 1))[k..] == Binary(v + 1, k + 1);
  }

  /** When a code is read: there is a one bit, and as many bits after it as there are zeros before it. */
  lemma TakeUEIff(s: Bits, k: nat)
    requires k == LeadingZeros(s)
    ensures var g := TakeUE(s);
            && (g.ok <==> 2 * k + 1 <= |s|)
            && (if g.ok then g.rest == s[2 * k + 1..]
                else g.value == 0 && g.rest == if k < |s| then s[k + 1..] else [])
  {
    hide LeadingZeros, CodeValue, Shifted;
    if k < |s| && k <= |s[k + 1..]| {
      DropTwice(s, k + 1, k);
      assert TakeBits(s[k + 1..], k).rest == s[k + 1..][k..];
    }
  }

  lemma DropTwice(s: Bits, m: nat, n: nat)
    requires m + n <= |s|
    ensures s[m..][n..] == s[m + n..]
  {
  }

  /** Whatever is read as a code is the code of one number, which is what is read, as far as the register is
      wide. */
  lemma TakeUEIsCode(s: Bits)
    requires TakeUE(s).ok
    ensures exists v: nat :: s == UE(v) + TakeUE(s).rest && TakeUE(s).value == v % UINT_RANGE
  {
    hide TakeUE, Value, Binary, Zeros, Log2;
    var k := LeadingZeros(s);
    TakeUEIff(s, k);
    ZerosAhead(s);
    var code := s[k..2 * k + 1];
    LeadsOne(code);
    var v: nat := Value(code) - 1;
    Log2Of(v + 1, k);
    ValueBinary(code);
    assert s[..k] == Zeros(k);
    assert s == s[..k] + code + s[2 * k + 1..];
    assert s == UE(v) + TakeUE(s).rest;
    UERoundTrip(v, TakeUE(s).rest);
  }

  /** Bits with a one in front spell a number of that size. */
  lemma {:induction false} LeadsOne(s: Bits)
    requires s != [] && s[0]
    ensures Pow2(|s| - 1) <= Value(s) < Pow2(|s|)
  {
    ValueBound(s);
    if |s| > 1 {
      LeadsOne(s[..|s| - 1]);
    }
  }

  lemma Log2Of(m: nat, k: nat)
    requires Pow2(k) <= m < Pow2(k + 1)
    ensures Log2(m) == k
  {
    var l := Log2(m);
    if l < k {
      Pow2Monotone(l + 1, k);
    } else if k < l {
      Pow2Monotone(k + 1, l);
    }
  }

  lemma CodeValueOf(v: nat, k: nat)
    requires Pow2(k) <= v + 1 < Pow2(k + 1)
    ensures CodeValue(k, (v + 1 - Pow2(k)) % UINT_RANGE) == v % UINT_RANGE
  {
    Pow2Of64();
    hide Pow2;
    if k < 64 {
      Pow2Monotone(k + 1, 64);
    } else {
      Pow2Add(64, k - 64);
      CodeValueWraps(v, v + 1 - Pow2(k), Pow2(k - 64));
    }
  }

  lemma CodeValueWraps(v: nat, w: nat, m: nat)
    requires v + 1 == w + UINT_RANGE * m
    ensures (UINT_RANGE - 1 + w % UINT_RANGE) % UINT_RANGE == v % UINT_RANGE
  {
    var x := UINT_RANGE - 1 + w % UINT_RANGE;
    SameRemainder(UINT_RANGE, v / UINT_RANGE, v % UINT_RANGE, w / UINT_RANGE + m - 1 + x / UINT_RANGE, x % UINT_RANGE);
  }

  lemma TakeCode(info: Bits, rest: Bits)
    ensures TakeUE(Zeros(|info|) + ([true] + info + rest)) == Got(CodeValue(|info|, Shifted(info)), true, rest)
  {
    hide TakeUE, CodeValue, Shifted, LeadingZeros, Zeros;
    var t := [true] + info + rest;
    ZerosLead(|info|, t);
    BehindOne(Zeros(|info|), info + rest);
    assert t == [true] + (info + rest);
    TakeAt(Zeros(|info|) + t, |info|, info, rest);
  }

  lemma BehindOne(a: Bits, b: Bits)
    ensures (a + ([true] + b))[|a| + 1..] == b
  {
  }

  lemma TakeAt(s: Bits, k: nat, info: Bits, rest: Bits)
    requires |info| == k < |s| && LeadingZeros(s) == k && s[k + 1..] == info + rest
    ensures TakeUE(s) == Got(CodeValue(k, Shifted(info)), true, rest)
  {
    hide CodeValue, Shifted, LeadingZeros, TakeBits;
    TakeFixed(info, rest);
  }

  /** A fixed-length field is read whole. */
  lemma TakeFixed(field: Bits, rest: Bits)
    ensures TakeBits(field + rest, |field|) == Got(Shifted(field), true, rest)
  {
    assert (field + rest)[..|field|] == field && (field + rest)[|field|..] == rest;
  }

  lemma TakeBinary(v: nat, n: nat, rest: Bits)
    requires n <= 64 && v < Pow2(n)
    ensures TakeBits(Binary(v, n) + rest, n) == Got(v, true, rest)
  {
    TakeFixed(Binary(v, n), rest);
    ShiftedValue(Binary(v, n));
    BinaryValue(v, n);
  }

  lemma TakeOne(b: bool, rest: Bits)
    ensures TakeFlag([b] + rest) == Got(b, true, rest)
  {
    assert ([b] + rest)[1..] == rest;
  }

  /** A register read as a signed number. */
  function ToInt(v: nat): int
    requires v < UINT_RANGE
  {
    if v < UINT_RANGE / 2 then v else v - UINT_RANGE
  }

  /** A number as it wraps in a signed register. */
  function WrapInt(x: int): int {
    ToInt(x % UINT_RANGE)
  }

  /** The signed mapping of an unsigned code. */
  function Signed(k: int): int {
    if k % 2 == 0 then -(k / 2) else WrapInt(k + 1) / 2
  }

  function TakeSE(s: Bits): (g: Got<int>)
    ensures g.ok == TakeUE(s).ok && g.rest == TakeUE(s).rest && (!g.ok ==> g.value == 0)
  {
    var u := TakeUE(s);
    if !u.ok then Got(0, false, u.rest) else Got(Signed(ToInt(u.value)), true, u.rest)
  }

  /** The unsigned code of a signed number: positive numbers take the odd codes, the others the even ones. */
  function CodeNumber(x: int): nat {
    if x > 0 then 2 * x - 1 else -2 * x
  }

  function SE(x: int): Bits {
    UE(CodeNumber(x))
  }

  /** Reading a signed code consumes exactly the code; it gives back the number exactly if the code fits a
      signed register. */
  lemma SERoundTrip(x: int, rest: Bits)
    ensures var g := TakeSE(SE(x) + rest);
            && g.ok && g.rest == rest
            && (g.value == x <==> -0x4000_0000_0000_0000 < x < 0x4000_0000_0000_0000)
  {
    hide UE, TakeUE;
    UERoundTrip(CodeNumber(x), rest);
    SignedExact(x);
  }

  lemma SignedExact(x: int)
    ensures Signed(ToInt(CodeNumber(x) % UINT_RANGE)) == x <==> -0x4000_0000_0000_0000 < x < 0x4000_0000_0000_0000
  {
    SignedBounds(ToInt(CodeNumber(x) % UINT_RANGE));
  }

  /** The codes of 0, 1, -1, 2, -2 and so on are 0, 1, 2, 3, 4 and so on. */
  lemma SignedOrder(m: int)
    requires 0 < m < 0x4000_0000_0000_0000
    ensures Signed(0) == 0 && Signed(2 * m - 1) == m && Signed(2 * m) == -m
    ensures CodeNumber(0) == 0 && CodeNumber(m) == 2 * m - 1 && CodeNumber(-m) == 2 * m
  {
  }

  lemma SignedBounds(k: int)
    requires -0x8000_0000_0000_0000 <= k < 0x8000_0000_0000_0000
    ensures -0x4000_0000_0000_0000 <= Signed(k) <= 0x4000_0000_0000_0000
  {
  }

  /** The bits of bytes. */
  function BytesToBits(data: seq<byte>): (s: Bits)
    ensures |s| == 8 * |data|
  {
    if data == [] then [] else BytesToBits(data[..|data| - 1]) + Binary(data[|data| - 1], 8)
  }

  lemma {:induction false} BitAt(data: seq<byte>, i: nat, j: nat)
    requires i < |data| && j < 8
    ensures BytesToBits(data)[8 * i + j] == Binary(data[i], 8)[j]
  {
    if i < |data| - 1 {
      BitAt(data[..|data| - 1], i, j);
    }
  }

  lemma {:induction false} BinaryAt(v: nat, n: nat, j: nat)
    requires j < n
    ensures Binary(v, n)[j] == (v / Pow2(n - 1 - j) % 2 == 1)
  {
    if j < n - 1 {
      BinaryAt(v / 2, n - 1, j);
      DivTwice(v, Pow2(n - 2 - j));
    }
  }

  lemma DivTwice(v: nat, p: nat)
    requires p > 0
    ensures v / 2 / p == v / (2 * p)
  {
    var q := v / (2 * p);
    var r := v % (2 * p);
    assert v == 2 * p * q + r;
    assert v / 2 == p * q + r / 2;
    assert r / 2 < p;
    DivUnique(v / 2, p, q, r / 2);
  }

  /** Bytes for a whole number of octets. */
  function Pack(s: Bits): (data: seq<byte>)
    requires |s| % 8 == 0
  {
    if s == [] then []
    else
      assert |s| >= 8;
      OctetBound(s[|s| - 8..]);
      Pack(s[..|s| - 8]) + [Value(s[|s| - 8..])]
  }

  lemma OctetBound(s: Bits)
    requires |s| == 8
    ensures Value(s) < 256
  {
    ShiftedValue(s);
    assert Pow2(8) == 256;
  }

  lemma {:induction false} ValueBinary(s: Bits)
    ensures Binary(Value(s), |s|) == s
  {
    if s != [] {
      ValueBinary(s[..|s| - 1]);
    }
  }

  lemma PackLast(front: Bits, octet: Bits)
    requires |front| % 8 == 0 && |octet| == 8
    ensures Value(octet) < 256 && Pack(front + octet) == Pack(front) + [Value(octet)]
  {
    hide Value;
    OctetBound(octet);
    assert (front + octet)[..|front|] == front && (front + octet)[|front|..] == octet;
  }

  lemma BytesNext(data: seq<byte>, b: byte)
    ensures BytesToBits(data + [b]) == BytesToBits(data) + Binary(b, 8)
  {
    hide Binary;
    assert (data + [b])[..|data|] == data;
  }

  lemma {:induction false} PackRoundTrip(s: Bits)
    requires |s| % 8 == 0
    ensures BytesToBits(Pack(s)) == s
  {
    if s != [] {
      hide Binary, Value, Pack, BytesToBits;
      var front, octet := s[..|s| - 8], s[|s| - 8..];
      assert s == front + octet;
      PackRoundTrip(front);
      PackLast(front, octet);
      BytesNext(Pack(front), Value(octet));
      ValueBinary(octet);
    }
  }
}
