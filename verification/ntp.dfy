/**
 NTP timestamps (section 6 of RFC 5905): 32 bits of seconds and 32 bits of fraction, and the
 conversion of nanoseconds to them and back in 64-bit arithmetic.
 */
module NtpTime {

  type u64 = x: int | 0 <= x < 0x1_0000_0000_0000_0000

  const SECOND := 1_000_000_000
  const TWO32 := 0x1_0000_0000

  function Wrap64(x: nat): u64 {
    x % 0x1_0000_0000_0000_0000
  }

  /** The nanoseconds of a second, shifted up by 32 bits: (nsec - sec * 1e9) << 32. */
  function Shifted(nsec: u64): u64 {
    Wrap64((nsec - nsec / SECOND * SECOND) * TWO32)
  }

  /** The fraction: the shifted nanoseconds divided by 1e9, to the nearest integer. */
  function Fraction(nsec: u64): u64 {
    Shifted(nsec) / SECOND + if Shifted(nsec) % SECOND >= SECOND / 2 then 1 else 0
  }

  /** toNtpTime on the nanoseconds since 1900; the two halves do not share a bit (FractionIsRounded). */
  function ToNtpTime(nsec: u64): u64 {
    FractionIsRounded(nsec);
    JoinFits(Wrap64(nsec / SECOND * TWO32), Fraction(nsec));
    Wrap64(nsec / SECOND * TWO32) / TWO32 * TWO32 + Fraction(nsec)
  }

  /** ntpTime.Duration. */
  function Duration(t: u64): u64 {
    var frac := Wrap64(t % TWO32 * SECOND);
    var nsec := frac / TWO32 + if frac % TWO32 >= 0x8000_0000 then 1 else 0;
    Wrap64(Wrap64(t / TWO32 * SECOND) + nsec)
  }

  lemma JoinFits(high: u64, low: nat)
    requires low < TWO32
    ensures 0 <= high / TWO32 * TWO32 + low < 0x1_0000_0000_0000_0000
  {}

  /** No overflow, and the fraction is within half a unit of the exact one and fits its 32 bits. */
  lemma FractionIsRounded(nsec: u64)
    ensures Shifted(nsec) == nsec % 1_000_000_000 * 0x1_0000_0000
    ensures Fraction(nsec) < 0x1_0000_0000
    ensures 2 * Fraction(nsec) * SECOND - SECOND <= 2 * (nsec % SECOND * TWO32) < 2 * Fraction(nsec) * SECOND + SECOND
  {
    var n := nsec % SECOND;
    assert n == nsec - nsec / SECOND * SECOND;
    assert n * TWO32 < 0x1_0000_0000_0000_0000;
  }

  /** Rounding to the nearest fraction and back to the nearest nanosecond gives the nanosecond. */
  lemma RoundingIsUndone(n: nat, fraction: nat)
    requires n < SECOND && fraction < TWO32
    requires 2 * fraction * SECOND - SECOND <= 2 * (n * TWO32) < 2 * fraction * SECOND + SECOND
    ensures var f := fraction * SECOND; f / TWO32 + (if f % TWO32 >= 0x8000_0000 then 1 else 0) == n
  {}

  lemma Halves(seconds: nat, fraction: nat)
    requires fraction < TWO32
    ensures (seconds * TWO32 + fraction) / TWO32 == seconds && (seconds * TWO32 + fraction) % TWO32 == fraction
  {}

  lemma LowSeconds(seconds: nat)
    requires seconds < 0x1_0000_0000_0000_0000
    ensures Wrap64(seconds * TWO32) / TWO32 == seconds % TWO32
  {}

  lemma NoWrap(x: nat)
    requires x < 0x1_0000_0000_0000_0000
    ensures Wrap64(x) == x
  {}

  /** Reading a timestamp whose fraction is near to some nanoseconds. */
  lemma DurationOfParts(seconds: nat, fraction: nat, n: nat)
    requires n < SECOND && fraction < TWO32 && seconds < TWO32
    requires 2 * fraction * SECOND - SECOND <= 2 * (n * TWO32) < 2 * fraction * SECOND + SECOND
    ensures Duration(seconds * TWO32 + fraction) == seconds * SECOND + n
  {
    var t := seconds * TWO32 + fraction;
    Halves(seconds, fraction);
    RoundingIsUndone(n, fraction);
    NoWrap(fraction * SECOND);
    NoWrap(seconds * SECOND);
    NoWrap(seconds * SECOND + n);
    assert Duration(t) == Wrap64(Wrap64(t / TWO32 * SECOND) + n);
  }

  /** What comes back in general: the seconds modulo 2^32, and the nanoseconds. */
  lemma DurationOfNtpTime(nsec: u64)
    ensures Duration(ToNtpTime(nsec)) == nsec / SECOND % TWO32 * SECOND + nsec % SECOND
  {
    FractionIsRounded(nsec);
    LowSeconds(nsec / SECOND);
    DurationOfParts(nsec / SECOND % TWO32, Fraction(nsec), nsec % SECOND);
  }

  /**
   The conversion is exact to the nanosecond for every time of fewer than 2^32 seconds since 1900,
   and for no later one.
   */
  lemma ConversionIsExactIff(nsec: u64)
    ensures Duration(ToNtpTime(nsec)) == nsec <==> nsec < 0x1_0000_0000 * 1_000_000_000
  {
    DurationOfNtpTime(nsec);
    SecondsFit(nsec, nsec / SECOND, nsec % SECOND);
  }

  lemma SecondsFit(nsec: nat, seconds: nat, n: nat)
    requires nsec == seconds * SECOND + n && n < SECOND
    ensures seconds % TWO32 * SECOND + n == nsec <==> seconds < TWO32
    ensures seconds < TWO32 <==> nsec < TWO32 * SECOND
  {}

  /** The upper half of a timestamp is the number of seconds, modulo 2^32, and the lower half the rounded fraction. */
  lemma HalvesOfNtpTime(nsec: u64)
    ensures ToNtpTime(nsec) / 0x1_0000_0000 == nsec / 1_000_000_000 % 0x1_0000_0000
    ensures ToNtpTime(nsec) % 0x1_0000_0000 == Fraction(nsec)
  {
    FractionIsRounded(nsec);
    LowSeconds(nsec / SECOND);
    Halves(nsec / SECOND % TWO32, Fraction(nsec));
  }

  /** Reading any timestamp: its seconds, and its fraction to the nearest nanosecond, without overflow. */
  lemma DurationIsNearest(t: u64)
    ensures var nsec := Duration(t) - t / 0x1_0000_0000 * 1_000_000_000;
            var exact := t % 0x1_0000_0000 * 1_000_000_000;
            -0x8000_0000 <= exact - nsec * 0x1_0000_0000 < 0x8000_0000
  {
    var seconds, fraction := t / TWO32, t % TWO32;
    NoWrap(fraction * SECOND);
    NoWrap(seconds * SECOND);
    var nsec := fraction * SECOND / TWO32 + if fraction * SECOND % TWO32 >= 0x8000_0000 then 1 else 0;
    NoWrap(seconds * SECOND + nsec);
  }
}
