/** The NTP timestamps of helpers.go: 32 bits of seconds and 32 bits of fraction, against nanoseconds
    since the NTP epoch. All products are in 64-bit registers. */
module NtpTime {
  const U64: nat := 0x1_0000_0000_0000_0000
  const FRAC: nat := 0x1_0000_0000
  const SECOND: nat := 1_000_000_000
  /** The first offset that does not fit: 2^32 seconds. */
  const ERA: nat := 4_294_967_296_000_000_000

  /** sec << 32 | frac, for a fraction that does not reach into the seconds. */
  function Combine(sec: nat, frac: nat): nat
    requires frac < FRAC
  {
    sec * FRAC % U64 + frac
  }

  /** The fraction for `n` nanoseconds below a second, rounded to nearest. */
  function Fraction(n: nat): nat {
    var scaled := n * FRAC % U64;
    scaled / SECOND + if scaled % SECOND >= SECOND / 2 then 1 else 0
  }

  function ToNtpTime(nsec: nat): nat
  {
    FractionFits(nsec % SECOND);
    Combine(nsec / SECOND, Fraction(nsec % SECOND))
  }

  /** The nanoseconds for a fraction, rounded to nearest. */
  function Nanoseconds(frac: nat): nat {
    var scaled := frac * SECOND % U64;
    scaled / FRAC + if scaled % FRAC >= FRAC / 2 then 1 else 0
  }

  function Duration(t: nat): nat {
    (t / FRAC * SECOND % U64 + Nanoseconds(t % FRAC)) % U64
  }

  /** Below a second nothing overflows, the fraction never carries into the seconds, and it is within half
      a unit of the exact one. */
  lemma FractionFits(n: nat)
    requires n < SECOND
    ensures n * FRAC < U64
    ensures Fraction(n) < FRAC
    ensures -(SECOND as int) <= 2 * (Fraction(n) * SECOND - n * FRAC) <= SECOND
  {
    var scaled := n * FRAC;
    var q, r := scaled / SECOND, scaled % SECOND;
    assert scaled == q * SECOND + r;
  }

  lemma NanosecondsClose(frac: nat)
    requires frac < FRAC
    ensures frac * SECOND < U64
    ensures Nanoseconds(frac) <= SECOND
    ensures -(FRAC as int) <= 2 * (Nanoseconds(frac) * FRAC - frac * SECOND) <= FRAC
  {
    var scaled := frac * SECOND;
    var q, r := scaled / FRAC, scaled % FRAC;
    assert scaled == q * FRAC + r;
  }

  lemma Parts(sec: nat, frac: nat)
    requires sec < FRAC && frac < FRAC
    ensures Combine(sec, frac) == sec * FRAC + frac < U64
    ensures (sec * FRAC + frac) / FRAC == sec && (sec * FRAC + frac) % FRAC == frac
  {
  }

  /** Rounding to a fraction and back loses nothing. */
  lemma NanosecondsInvert(n: nat)
    requires n < SECOND
    ensures Fraction(n) < FRAC && Nanoseconds(Fraction(n)) == n
  {
    FractionFits(n);
    NanosecondsClose(Fraction(n));
    hide Fraction, Nanoseconds;
  }

  /** Every offset of the era survives the trip through an NTP timestamp exactly. */
  lemma DurationInvertsToNtp(nsec: nat)
    requires nsec < ERA
    ensures Duration(ToNtpTime(nsec)) == nsec
  {
    var sec, n := nsec / SECOND, nsec % SECOND;
    FractionFits(n);
    NanosecondsInvert(n);
    hide Fraction, Nanoseconds;
    DurationOf(sec, Fraction(n));
  }

  lemma DurationOf(sec: nat, frac: nat)
    requires sec < FRAC && frac < FRAC && Nanoseconds(frac) < SECOND
    ensures Duration(Combine(sec, frac)) == sec * SECOND + Nanoseconds(frac)
  {
    hide Nanoseconds;
    Parts(sec, frac);
    assert sec * SECOND + Nanoseconds(frac) < U64;
  }

  /** Later offsets have later timestamps. */
  lemma ToNtpMonotone(a: nat, b: nat)
    requires a < b < ERA
    ensures ToNtpTime(a) < ToNtpTime(b)
  {
    FractionFits(a % SECOND);
    FractionFits(b % SECOND);
    Parts(a / SECOND, Fraction(a % SECOND));
    Parts(b / SECOND, Fraction(b % SECOND));
    if a / SECOND == b / SECOND {
      assert a % SECOND < b % SECOND;
      hide Fraction;
    }
  }

  /** The other way round, a timestamp moves by at most 2 units of its fraction, unless it lies so close
      to the end of the era that the nearest nanosecond is the end itself. */
  lemma ToNtpAlmostInvertsDuration(t: nat)
    requires t < U64 && Duration(t) < ERA
    ensures -2 <= ToNtpTime(Duration(t)) - t <= 2
  {
    hide Combine, Fraction, Nanoseconds, Duration;
    var sec, frac := t / FRAC, t % FRAC;
    NanosecondsClose(frac);
    var n := Nanoseconds(frac);
    DurationParts(t);
    if n == SECOND {
      FractionFits(0);
      Parts(sec + 1, 0);
      CloseFractions(0, frac, n);
    } else {
      FractionFits(n);
      Parts(sec, Fraction(n));
      CloseFractions(Fraction(n), frac, n);
    }
  }

  lemma DurationParts(t: nat)
    requires t < U64
    ensures Duration(t) == t / FRAC * SECOND + Nanoseconds(t % FRAC) < 2 * ERA
  {
    NanosecondsClose(t % FRAC);
    hide Nanoseconds;
  }

  /** Two fractions that both lie near the same nanosecond. */
  lemma CloseFractions(f: nat, frac: nat, n: nat)
    requires n < SECOND ==> -(SECOND as int) <= 2 * (f * SECOND - n * FRAC) <= SECOND
    requires n == SECOND ==> f == 0
    requires -(FRAC as int) <= 2 * (n * FRAC - frac * SECOND) <= FRAC
    ensures n < SECOND ==> -2 <= f - frac <= 2
    ensures n == SECOND ==> FRAC - 2 <= frac <= FRAC + 2
  {
  }

  /** Exactly the last two timestamps of the era round up to its end. */
  lemma DurationInEraIff(t: nat)
    requires t < U64
    ensures Duration(t) < ERA <==> t < U64 - 2
  {
    DurationParts(t);
    NanosecondsClose(t % FRAC);
    hide Nanoseconds, Duration;
  }

  /** A timestamp is the offset in units of 2^-32 seconds, to the nearest unit. */
  lemma ToNtpNearest(nsec: nat)
    requires nsec < 4_294_967_296_000_000_000
    ensures -1_000_000_000 <= 2 * (ToNtpTime(nsec) * 1_000_000_000 - nsec * 0x1_0000_0000) <= 1_000_000_000
  {
    FractionFits(nsec % SECOND);
    Parts(nsec / SECOND, Fraction(nsec % SECOND));
    hide Fraction, Combine;
    assert nsec == nsec / SECOND * SECOND + nsec % SECOND;
  }

  /** And an offset is the timestamp in nanoseconds, to the nearest one. */
  lemma DurationNearest(t: nat)
    requires t < 0x1_0000_0000_0000_0000
    ensures -0x1_0000_0000 <= 2 * (Duration(t) * 0x1_0000_0000 - t * 1_000_000_000) <= 0x1_0000_0000
  {
    DurationParts(t);
    NanosecondsClose(t % FRAC);
    hide Nanoseconds, Duration;
    assert t == t / FRAC * FRAC + t % FRAC;
  }
}
