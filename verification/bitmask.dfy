/** Masks in which each bit stands for a number. */
module BitMask {
  /** 1 << k in 16 bits; shifted out from k = 16 on. */
  function One(k: nat): bv16 {
    match k
    case 0 => 0x1 case 1 => 0x2 case 2 => 0x4 case 3 => 0x8
    case 4 => 0x10 case 5 => 0x20 case 6 => 0x40 case 7 => 0x80
    case 8 => 0x100 case 9 => 0x200 case 10 => 0x400 case 11 => 0x800
    case 12 => 0x1000 case 13 => 0x2000 case 14 => 0x4000 case 15 => 0x8000
    case _ => 0
  }

  /** The same in a byte; shifted out from k = 8 on. */
  function OneByte(k: nat): bv8 {
    (One(k) & 0xff) as bv8
  }

  /** One bit, as far to the left as its number. */
  lemma OneShifts(k: nat)
    ensures k < 16 ==> One(k) == (1 as bv16) << k
    ensures OneByte(k) == if k < 8 then (1 as bv8) << k else 0
  {
    match k
    case 0 => case 1 => case 2 => case 3 => case 4 => case 5 => case 6 => case 7 =>
    case 8 => case 9 => case 10 => case 11 => case 12 => case 13 => case 14 => case 15 =>
    case _ =>
  }

  predicate Bit(mask: bv16, k: nat) {
    mask & One(k) != 0
  }

  /** The k-th bit from the right is set. */
  predicate Shifted(mask: bv16, k: nat) {
    k < 16 && mask & ((1 as bv16) << k) != 0
  }

  lemma BitShifts(mask: bv16, k: nat)
    requires k < 16
    ensures Bit(mask, k) <==> Shifted(mask, k)
  {
    OneShifts(k);
    hide One;
  }

  predicate InByte(mask: bv8, k: nat) {
    Bit(mask as bv16, k)
  }

  lemma ByteTest(mask: bv8, k: nat)
    ensures InByte(mask, k) <==> mask & OneByte(k) != 0
  {
  }
}
