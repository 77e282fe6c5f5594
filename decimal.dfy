/** The BigDouble record of main.cpp:7-11, the exact number it denotes and its
    canonical form (the shape normalize leaves behind). */
module Decimal {
  import opened Digits

  /** Sign flag, digits before the point and digits after the point. */
  datatype BigDouble = BigDouble(negative: bool, integerPart: string, fractionPart: string)

  /** Both parts consist of decimal digits only (the integer part may be empty). */
  predicate WellFormed(d: BigDouble) {
    AllDigits(d.integerPart) && AllDigits(d.fractionPart)
  }

  /** The shape main.cpp tests for zero: integer part "0" and no fraction. */
  predicate IsZero(d: BigDouble) {
    d.integerPart == "0" && d.fractionPart == ""
  }

  /** The canonical form: no leading zero in the integer part unless it is "0",
      no trailing zero in the fraction, and zero is never negative. */
  predicate Normalized(d: BigDouble) {
    && WellFormed(d)
    && |d.integerPart| >= 1
    && (|d.integerPart| > 1 ==> d.integerPart[0] != '0')
    && (d.fractionPart != [] ==> d.fractionPart[|d.fractionPart| - 1] != '0')
    && (IsZero(d) ==> !d.negative)
  }

  const Zero := BigDouble(false, "0", "")

  /** All digits of d with the point removed, padded on the right to k fraction digits. */
  function Aligned(d: BigDouble, k: nat): string
    requires k >= |d.fractionPart|
  {
    d.integerPart + d.fractionPart + Zeros(k - |d.fractionPart|)
  }

  /** The absolute value d denotes: its digits read as an integer, divided by 10^|fractionPart|. */
  ghost function Magnitude(d: BigDouble): real
    requires WellFormed(d)
  {
    (DigitsValue(d.integerPart + d.fractionPart) as real) / (Pow10(|d.fractionPart|) as real)
  }

  /** The signed integer d's digits denote before the point is placed. */
  ghost function Numerator(d: BigDouble): int
    requires WellFormed(d)
  {
    var u: int := DigitsValue(d.integerPart + d.fractionPart);
    if d.negative then -u else u
  }

  /** The exact signed number d denotes: its signed digits divided by 10^|fractionPart|. */
  ghost function Value(d: BigDouble): real
    requires WellFormed(d)
  {
    (Numerator(d) as real) / (Pow10(|d.fractionPart|) as real)
  }

  // ---------------------------------------------------------------------------
  // Exact arithmetic on quotients by a positive integer

  lemma RealScale(u: nat, p: nat, q: nat)
    requires p > 0 && q > 0
    ensures ((u * q) as real) / ((p * q) as real) == (u as real) / (p as real)
  {
    var r := (u as real) / (p as real);
    assert r * (p as real) == u as real;
    assert (u * q) as real == (u as real) * (q as real);
    assert (p * q) as real == (p as real) * (q as real);
  }

  lemma RealDivCompare(u: nat, v: nat, p: nat)
    requires p > 0
    ensures (u as real) / (p as real) < (v as real) / (p as real) <==> u < v
    ensures (u as real) / (p as real) == (v as real) / (p as real) <==> u == v
  {
  }

  lemma RealDivAdd(u: nat, v: nat, p: nat)
    requires p > 0
    ensures (u as real) / (p as real) + (v as real) / (p as real) == ((u + v) as real) / (p as real)
  {
  }

  // ---------------------------------------------------------------------------
  // Reading a BigDouble at a common scale

  lemma MagnitudeNonNegative(d: BigDouble)
    requires WellFormed(d)
    ensures Magnitude(d) >= 0.0
  {
  }

  /** Magnitude(d) is the aligned digit string read at scale k. */
  lemma MagnitudeAt(d: BigDouble, k: nat)
    requires WellFormed(d) && k >= |d.fractionPart|
    ensures AllDigits(Aligned(d, k))
    ensures Magnitude(d) == (DigitsValue(Aligned(d, k)) as real) / (Pow10(k) as real)
  {
    var f := |d.fractionPart|;
    TrailingZeros(d.integerPart + d.fractionPart, k - f);
    Pow10Add(f, k - f);
    RealScale(DigitsValue(d.integerPart + d.fractionPart), Pow10(f), Pow10(k - f));
  }

  /** At a common scale, magnitudes compare as the aligned digit strings do. */
  lemma CompareAt(x: BigDouble, y: BigDouble, k: nat)
    requires WellFormed(x) && WellFormed(y)
    requires k >= |x.fractionPart| && k >= |y.fractionPart|
    ensures AllDigits(Aligned(x, k)) && AllDigits(Aligned(y, k))
    ensures Magnitude(x) < Magnitude(y) <==> DigitsValue(Aligned(x, k)) < DigitsValue(Aligned(y, k))
    ensures Magnitude(x) == Magnitude(y) <==> DigitsValue(Aligned(x, k)) == DigitsValue(Aligned(y, k))
  {
    MagnitudeAt(x, k);
    MagnitudeAt(y, k);
    RealDivCompare(DigitsValue(Aligned(x, k)), DigitsValue(Aligned(y, k)), Pow10(k));
  }

  /** If r's aligned digits add up with y's to x's, so do the magnitudes. */
  lemma SumAt(r: BigDouble, y: BigDouble, x: BigDouble, k: nat)
    requires WellFormed(r) && WellFormed(y) && WellFormed(x)
    requires k >= |r.fractionPart| && k >= |y.fractionPart| && k >= |x.fractionPart|
    requires AllDigits(Aligned(r, k)) && AllDigits(Aligned(y, k)) && AllDigits(Aligned(x, k))
    requires DigitsValue(Aligned(r, k)) + DigitsValue(Aligned(y, k)) == DigitsValue(Aligned(x, k))
    ensures Magnitude(r) + Magnitude(y) == Magnitude(x)
  {
    MagnitudeAt(r, k);
    MagnitudeAt(y, k);
    MagnitudeAt(x, k);
    RealDivAdd(DigitsValue(Aligned(r, k)), DigitsValue(Aligned(y, k)), Pow10(k));
  }

  /** The value is the magnitude, negated when the sign flag is set. */
  lemma ValueSign(d: BigDouble)
    requires WellFormed(d)
    ensures Value(d) == if d.negative then -Magnitude(d) else Magnitude(d)
  {
    if d.negative {
      NegatedQuotient(DigitsValue(d.integerPart + d.fractionPart), Pow10(|d.fractionPart|));
    }
  }

  /** Records with the same sign flag and equal magnitudes denote the same number. */
  lemma SignedAlike(x: BigDouble, y: BigDouble)
    requires WellFormed(x) && WellFormed(y)
    requires x.negative == y.negative && Magnitude(x) == Magnitude(y)
    ensures Value(x) == Value(y)
  {
    ValueSign(x);
    ValueSign(y);
  }

  /** Negating the numerator negates the quotient. */
  lemma NegatedQuotient(u: int, p: nat)
    requires p > 0
    ensures ((-u) as real) / (p as real) == -((u as real) / (p as real))
  {
  }

  /** Quotients multiply numerator by numerator and denominator by denominator. */
  lemma QuotientProduct(vr: real, va: real, vb: real, nr: int, na: int, nb: int, pr: nat, pa: nat, pb: nat)
    requires pa > 0 && pb > 0 && nr == na * nb && pr == pa * pb
    requires vr == (nr as real) / (pr as real)
    requires va == (na as real) / (pa as real) && vb == (nb as real) / (pb as real)
    ensures vr == va * vb
  {
    assert (na * nb) as real == (na as real) * (nb as real);
    assert (pa * pb) as real == (pa as real) * (pb as real);
  }

  /** The sign rule on integers: the magnitudes multiply, and the result is negative
      exactly when one factor is. */
  lemma SignedTimes(nr: int, na: int, nb: int, ur: int, ua: int, ub: int, sr: bool, sa: bool, sb: bool)
    requires ur == ua * ub && sr == (sa != sb)
    requires nr == (if sr then -ur else ur)
    requires na == (if sa then -ua else ua) && nb == (if sb then -ub else ub)
    ensures nr == na * nb
  {
  }

  /** With r's digits the product of a's and b's, as many fraction digits as both
      together and the sign "exactly one is negative", numerators and denominators
      multiply. */
  lemma NumeratorProduct(r: BigDouble, a: BigDouble, b: BigDouble)
    requires WellFormed(r) && WellFormed(a) && WellFormed(b)
    requires |r.fractionPart| == |a.fractionPart| + |b.fractionPart|
    requires DigitsValue(r.integerPart + r.fractionPart)
          == DigitsValue(a.integerPart + a.fractionPart) * DigitsValue(b.integerPart + b.fractionPart)
    requires r.negative == (a.negative != b.negative)
    ensures Numerator(r) == Numerator(a) * Numerator(b)
    ensures Pow10(|r.fractionPart|) == Pow10(|a.fractionPart|) * Pow10(|b.fractionPart|)
  {
    Pow10Add(|a.fractionPart|, |b.fractionPart|);
    SignedTimes(Numerator(r), Numerator(a), Numerator(b),
                DigitsValue(r.integerPart + r.fractionPart), DigitsValue(a.integerPart + a.fractionPart),
                DigitsValue(b.integerPart + b.fractionPart), r.negative, a.negative, b.negative);
  }

  /** When numerators and denominators multiply, so do the values. */
  lemma ProductOf(r: BigDouble, a: BigDouble, b: BigDouble)
    requires WellFormed(r) && WellFormed(a) && WellFormed(b)
    requires Numerator(r) == Numerator(a) * Numerator(b)
    requires Pow10(|r.fractionPart|) == Pow10(|a.fractionPart|) * Pow10(|b.fractionPart|)
    ensures Value(r) == Value(a) * Value(b)
  {
    QuotientProduct(Value(r), Value(a), Value(b), Numerator(r), Numerator(a), Numerator(b),
                    Pow10(|r.fractionPart|), Pow10(|a.fractionPart|), Pow10(|b.fractionPart|));
  }

  // ---------------------------------------------------------------------------
  // The canonical form

  /** A record whose digits read as 0 denotes 0, whatever its sign. */
  lemma ZeroDigits(d: BigDouble)
    requires WellFormed(d) && DigitsValue(d.integerPart + d.fractionPart) == 0
    ensures Magnitude(d) == 0.0 && Value(d) == 0.0
  {
    RealDivCompare(0, 0, Pow10(|d.fractionPart|));
    ValueSign(d);
  }

  /** A canonical record denotes zero exactly when it has the zero shape. */
  lemma ZeroMagnitude(d: BigDouble)
    requires Normalized(d)
    ensures Magnitude(d) == 0.0 <==> IsZero(d)
  {
    var i, f := d.integerPart, d.fractionPart;
    ValueConcat(i, f);
    if IsZero(d) {
      assert DigitsValue(i) == 0 by { assert i[..0] == []; }
    } else if |i| > 1 || i[0] != '0' {
      LowerBound(i);
      assert DigitsValue(i + f) >= DigitsValue(i) * Pow10(|f|);
    } else {
      assert DigitsValue(f) >= 1;
    }
    RealDivCompare(0, DigitsValue(i + f), Pow10(|f|));
  }

  /** Two canonical records with the same magnitude have the same digits. */
  lemma SameDigits(x: BigDouble, y: BigDouble)
    requires Normalized(x) && Normalized(y) && Magnitude(x) == Magnitude(y)
    ensures x.integerPart == y.integerPart && x.fractionPart == y.fractionPart
  {
    var k := if |x.fractionPart| < |y.fractionPart| then |y.fractionPart| else |x.fractionPart|;
    CompareAt(x, y, k);
    var ax, ay := Aligned(x, k), Aligned(y, k);
    if |x.integerPart| > |y.integerPart| {
      LongerIsGreater(ax, ay);
      assert false;
    } else if |y.integerPart| > |x.integerPart| {
      LongerIsGreater(ay, ax);
      assert false;
    }
    ValueInjective(ax, ay);
    AlignedParts(x, k);
    AlignedParts(y, k);
    SameSplit(ax, ay, |x.integerPart|, |y.integerPart|);
    PaddedFractions(x.fractionPart, y.fractionPart, k);
  }

  /** The aligned digits split back into the integer part and the padded fraction. */
  lemma AlignedParts(d: BigDouble, k: nat)
    requires k >= |d.fractionPart|
    ensures Aligned(d, k)[..|d.integerPart|] == d.integerPart
    ensures Aligned(d, k)[|d.integerPart|..] == d.fractionPart + Zeros(k - |d.fractionPart|)
  {
  }

  /** Slicing equal strings at equal indices; a lemma of its own so that the caller can
      pass each side as written, which keeps its proof cheap on every solver seed. */
  lemma SameSplit(a: string, b: string, n: nat, m: nat)
    requires a == b && n == m && n <= |a|
    ensures a[..n] == b[..m] && a[n..] == b[m..]
  {
  }

  /** Of two fractions that agree once padded to k digits, the longer one ends in a
      padding zero. */
  lemma LongerEndsInZero(f: string, g: string, k: nat)
    requires |f| <= k && |g| <= k
    requires f + Zeros(k - |f|) == g + Zeros(k - |g|)
    ensures |f| < |g| ==> g[|g| - 1] == '0'
  {
    if |f| < |g| {
      var p := f + Zeros(k - |f|);
      assert p[|g| - 1] == g[|g| - 1];
    }
  }

  /** Fractions without trailing zeros that agree once padded to k digits are equal. */
  lemma PaddedFractions(f: string, g: string, k: nat)
    requires |f| <= k && |g| <= k
    requires f != [] ==> f[|f| - 1] != '0'
    requires g != [] ==> g[|g| - 1] != '0'
    requires f + Zeros(k - |f|) == g + Zeros(k - |g|)
    ensures f == g
  {
    LongerEndsInZero(f, g, k);
    LongerEndsInZero(g, f, k);
    var p := f + Zeros(k - |f|);
    assert f == p[..|f|];
    assert g == p[..|g|];
  }

  /** Each exact value has exactly one canonical record. */
  lemma CanonicalUnique(x: BigDouble, y: BigDouble)
    requires Normalized(x) && Normalized(y) && Value(x) == Value(y)
    ensures x == y
  {
    MagnitudeNonNegative(x);
    MagnitudeNonNegative(y);
    ValueSign(x);
    ValueSign(y);
    assert Magnitude(x) == Magnitude(y);
    SameDigits(x, y);
    ZeroMagnitude(x);
  }
}
