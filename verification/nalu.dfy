/** The byte layer of a NAL unit: start codes and emulation prevention, as in pkg/codec/h26xhelper.go and
    section 7.3.1.1 and Annex B of ITU-T H.265. */
module NalUnit {
  import opened Wrappers

  /** Byte `i` is an emulation prevention byte: 3 after two zeros. */
  predicate IsEmulation(data: seq<byte>, i: nat)
    requires i < |data|
  {
    i > 1 && data[i] == 3 && data[i - 1] == 0 && data[i - 2] == 0
  }

  /** The first `n` bytes without the emulation prevention bytes among them. */
  function Removed(data: seq<byte>, n: nat): seq<byte>
    requires n <= |data|
  {
    if n == 0 then []
    else Removed(data, n - 1) + if IsEmulation(data, n - 1) then [] else [data[n - 1]]
  }

  /** Byte after byte, a 3 after two zeros goes and all else stays. */
  lemma RemovedNext(data: seq<byte>, n: nat)
    requires n < |data|
    ensures Removed(data, n + 1) ==
      if n >= 2 && data[n - 2..n + 1] == [0, 0, 3] then Removed(data, n) else Removed(data, n) + [data[n]]
  {
    if n >= 2 {
      assert data[n - 2..n + 1] == [data[n - 2], data[n - 1], data[n]];
    }
    assert Removed(data, n) + [] == Removed(data, n);
  }

  method RemoveEmulationPreventionBytes(data: seq<byte>) returns (out: seq<byte>)
    ensures out == Removed(data, |data|)
  {
    out := [];
    for i := 0 to |data|
      invariant out == Removed(data, i)
    {
      if i > 1 && data[i] == 3 && data[i - 1] == 0 && data[i - 2] == 0 {
        continue;
      }
      out := out + [data[i]];
    }
  }

  /** The encoder's side: bytes written, and how many zeros they end in since the last inserted byte. */
  datatype Writer = Writer(out: seq<byte>, zeros: nat)

  /** A byte that could complete a start code after two zeros is kept off by a 3. */
  function Write(w: Writer, b: byte): Writer {
    var zeros := if b == 0 then 1 else 0;
    if w.zeros == 2 && b <= 3 then Writer(w.out + [3, b], zeros)
    else Writer(w.out + [b], if b == 0 then w.zeros + 1 else 0)
  }

  function WriteAll(data: seq<byte>): Writer {
    if data == [] then Writer([], 0) else Write(WriteAll(data[..|data| - 1]), data[|data| - 1])
  }

  /** `data` with emulation prevention bytes inserted. */
  function Inserted(data: seq<byte>): seq<byte> {
    WriteAll(data).out
  }

  /** The zeros counted are those that the output really ends in. */
  ghost predicate CountsZeros(w: Writer) {
    && w.zeros <= 2 && w.zeros <= |w.out|
    && (forall i | |w.out| - w.zeros <= i < |w.out| :: w.out[i] == 0)
    && (w.zeros < |w.out| && w.zeros < 2 ==> w.out[|w.out| - 1 - w.zeros] != 0)
  }

  lemma {:induction false} RemovedPrefix(a: seq<byte>, b: seq<byte>, n: nat)
    requires n <= |a| && a <= b
    ensures Removed(a, n) == Removed(b, n)
  {
    if n > 0 {
      RemovedPrefix(a, b, n - 1);
    }
  }

  lemma WriteRemoved(w: Writer, b: byte)
    requires CountsZeros(w)
    ensures CountsZeros(Write(w, b))
    ensures Removed(Write(w, b).out, |Write(w, b).out|) == Removed(w.out, |w.out|) + [b]
  {
    var out := Write(w, b).out;
    RemovedPrefix(w.out, out, |w.out|);
    if w.zeros == 2 && b <= 3 {
      assert IsEmulation(out, |w.out|) && !IsEmulation(out, |w.out| + 1);
      assert Removed(out, |w.out| + 1) == Removed(w.out, |w.out|);
    } else {
      assert !IsEmulation(out, |w.out|);
    }
  }

  lemma NothingWritten()
    ensures CountsZeros(Writer([], 0))
  {
  }

  /** Removing inverts inserting, for all byte strings. */
  lemma {:induction false} RemoveInvertsInsert(data: seq<byte>)
    ensures CountsZeros(WriteAll(data))
    ensures Removed(Inserted(data), |Inserted(data)|) == data
  {
    hide Write, CountsZeros;
    if data == [] {
      NothingWritten();
    } else {
      RemoveInvertsInsert(data[..|data| - 1]);
      WriteRemoved(WriteAll(data[..|data| - 1]), data[|data| - 1]);
    }
  }

  /** No three bytes in a row are 0, 0 and one below 3. */
  ghost predicate NoStartCode(s: seq<byte>) {
    forall i | 0 <= i < |s| - 2 :: !(s[i] == 0 && s[i + 1] == 0 && s[i + 2] < 3)
  }

  /** What is inserted keeps start codes out. */
  lemma {:induction false} InsertedHasNoStartCode(data: seq<byte>)
    ensures NoStartCode(Inserted(data))
  {
    if data != [] {
      var w := WriteAll(data[..|data| - 1]);
      InsertedHasNoStartCode(data[..|data| - 1]);
      RemoveInvertsInsert(data[..|data| - 1]);
    }
  }

  function StripStartCode(b: seq<byte>): seq<byte> {
    if |b| >= 4 && b[0] == 0 && b[1] == 0 && b[2] == 0 && b[3] == 1 then b[4..]
    else if |b| >= 3 && b[0] == 0 && b[1] == 0 && b[2] == 1 then b[3..]
    else b
  }

  /** What goes is a leading 0, 0, 0, 1 or a leading 0, 0, 1. */
  lemma StripIff(b: seq<byte>)
    ensures [0, 0, 0, 1] <= b ==> StripStartCode(b) == b[4..]
    ensures [0, 0, 1] <= b ==> StripStartCode(b) == b[3..]
    ensures !([0, 0, 0, 1] <= b) && !([0, 0, 1] <= b) ==> StripStartCode(b) == b
  {
    if |b| >= 4 {
      assert b[..4] == [b[0], b[1], b[2], b[3]];
    }
    if |b| >= 3 {
      assert b[..3] == [b[0], b[1], b[2]];
    }
  }

  datatype StartCode = NoCode | ThreeBytes | FourBytes

  function CodeBytes(c: StartCode): seq<byte> {
    match c
    case NoCode => []
    case ThreeBytes => [0, 0, 1]
    case FourBytes => [0, 0, 0, 1]
  }

  /** The start code goes, if there is one, and nothing else does. */
  lemma StripIsExact(c: StartCode, data: seq<byte>)
    ensures StripStartCode(CodeBytes(c) + Inserted(data)) == Inserted(data)
  {
    hide Inserted, StripStartCode, NoStartCode;
    InsertedHasNoStartCode(data);
    var s := Inserted(data);
    match c
    case NoCode => StripNone(s); assert [] + s == s;
    case ThreeBytes => StripThree(s);
    case FourBytes => StripFour(s);
  }

  lemma StripNone(s: seq<byte>)
    requires NoStartCode(s)
    ensures StripStartCode(s) == s
  {
    if |s| >= 3 {
      assert !(s[0] == 0 && s[0 + 1] == 0 && s[0 + 2] < 3);
    }
  }

  lemma StripThree(s: seq<byte>)
    ensures StripStartCode([0, 0, 1] + s) == s
  {
    var t := [0, 0, 1] + s;
    assert t[2] == 1 && t[3..] == s;
  }

  lemma StripFour(s: seq<byte>)
    ensures StripStartCode([0, 0, 0, 1] + s) == s
  {
    var t := [0, 0, 0, 1] + s;
    assert t[2] == 0 && t[3] == 1 && t[4..] == s;
  }

  /** A NAL unit, with or without start code, gives back its payload. */
  lemma NalRoundTrip(c: StartCode, data: seq<byte>)
    ensures var nal := StripStartCode(CodeBytes(c) + Inserted(data));
            Removed(nal, |nal|) == data
  {
    StripIsExact(c, data);
    RemoveInvertsInsert(data);
  }

  /** After a first byte that is not zero, inserting over the whole NAL unit is inserting over the rest. */
  lemma {:induction false} InsertAfterHeader(h: byte, data: seq<byte>)
    requires h != 0
    ensures WriteAll([h] + data) == Writer([h] + Inserted(data), WriteAll(data).zeros)
  {
    if data == [] {
      assert [h] + data == [h] && [h][..0] == [];
      assert WriteAll([h]) == Write(WriteAll([]), h);
    } else {
      assert ([h] + data)[..|data|] == [h] + data[..|data| - 1];
      InsertAfterHeader(h, data[..|data| - 1]);
    }
  }
}
