/** normalize (main.cpp:164-187): brings a BigDouble into canonical form. */
module Normalizer {
  import opened Digits
  import opened Decimal

  /** The C++ function updates its by-reference argument; the updated record is returned.
      Stripping leading integer zeros and trailing fraction zeros keeps the number, and
      the result is the unique canonical record of it (see Decimal.CanonicalUnique). */
  method Normalize(bd: BigDouble) returns (r: BigDouble)
    requires WellFormed(bd)
    ensures Normalized(r)
    ensures Magnitude(r) == Magnitude(bd) && Value(r) == Value(bd)
    ensures r.negative == (bd.negative && !IsZero(r))
    ensures Normalized(bd) ==> r == bd
  {
    var integerPart := bd.integerPart;
    var start := 0;
    while start + 1 < |integerPart| && integerPart[start] == '0'
      invariant start == 0 || start < |integerPart|
      invariant forall k :: 0 <= k < start ==> integerPart[k] == '0'
    {
      start := start + 1;
    }
    integerPart := integerPart[start..];
    if |integerPart| == 0 {
      integerPart := "0";
    }

    var fractionPart := bd.fractionPart;
    while |fractionPart| > 0 && fractionPart[|fractionPart| - 1] == '0'
      invariant |fractionPart| <= |bd.fractionPart| && fractionPart == bd.fractionPart[..|fractionPart|]
      invariant forall k :: |fractionPart| <= k < |bd.fractionPart| ==> bd.fractionPart[k] == '0'
    {
      fractionPart := fractionPart[..|fractionPart| - 1];
    }

    var negative := bd.negative;
    if integerPart == "0" && fractionPart == "" {
      negative := false;
    }
    r := BigDouble(negative, integerPart, fractionPart);
    Stripped(bd, r, start);
  }

  /** Normalizing a second time changes nothing. */
  method NormalizeTwice(bd: BigDouble) returns (once: BigDouble, twice: BigDouble)
    requires WellFormed(bd)
    ensures Normalized(twice) && once == twice
  {
    once := Normalize(bd);
    twice := Normalize(once);
  }

  /** What the two loops and the zero test of normalize leave behind, given where they
      stopped: start leading zeros erased, the fraction cut back to its last nonzero digit. */
  lemma Stripped(bd: BigDouble, r: BigDouble, start: nat)
    requires WellFormed(bd)
    requires start == 0 || start < |bd.integerPart|
    requires forall k :: 0 <= k < start ==> bd.integerPart[k] == '0'
    requires !(start + 1 < |bd.integerPart| && bd.integerPart[start] == '0')
    requires r.integerPart == if bd.integerPart[start..] == [] then "0" else bd.integerPart[start..]
    requires |r.fractionPart| <= |bd.fractionPart| && r.fractionPart == bd.fractionPart[..|r.fractionPart|]
    requires forall k :: |r.fractionPart| <= k < |bd.fractionPart| ==> bd.fractionPart[k] == '0'
    requires !(|r.fractionPart| > 0 && r.fractionPart[|r.fractionPart| - 1] == '0')
    requires r.negative == (bd.negative && !(r.integerPart == "0" && r.fractionPart == ""))
    ensures Normalized(r)
    ensures Magnitude(r) == Magnitude(bd) && Value(r) == Value(bd)
    ensures r.negative == (bd.negative && !IsZero(r))
    ensures Normalized(bd) ==> r == bd
  {
    StrippedForm(bd, r, start);
    StrippedZeros(bd, r, start);
    SameValue(bd, r);
    if Normalized(bd) {
      KeptCanonical(bd, r, start);
    }
  }

  /** The record left behind is canonical, and it differs from bd only by the zeros
      that were erased. */
  lemma StrippedForm(bd: BigDouble, r: BigDouble, start: nat)
    requires WellFormed(bd)
    requires start == 0 || start < |bd.integerPart|
    requires forall k :: 0 <= k < start ==> bd.integerPart[k] == '0'
    requires !(start + 1 < |bd.integerPart| && bd.integerPart[start] == '0')
    requires r.integerPart == if bd.integerPart[start..] == [] then "0" else bd.integerPart[start..]
    requires |r.fractionPart| <= |bd.fractionPart| && r.fractionPart == bd.fractionPart[..|r.fractionPart|]
    requires forall k :: |r.fractionPart| <= k < |bd.fractionPart| ==> bd.fractionPart[k] == '0'
    requires !(|r.fractionPart| > 0 && r.fractionPart[|r.fractionPart| - 1] == '0')
    requires r.negative == (bd.negative && !(r.integerPart == "0" && r.fractionPart == ""))
    ensures Normalized(r)
    ensures bd.integerPart == Zeros(start) + r.integerPart || (bd.integerPart == [] && r.integerPart == "0")
    ensures bd.fractionPart == r.fractionPart + Zeros(|bd.fractionPart| - |r.fractionPart|)
  {
    assert bd.integerPart == Zeros(start) + bd.integerPart[start..];
    assert bd.fractionPart == r.fractionPart + Zeros(|bd.fractionPart| - |r.fractionPart|);
  }

  /** Equal magnitudes and the same sign, except that zero is positive: equal values. */
  lemma SameValue(bd: BigDouble, r: BigDouble)
    requires WellFormed(bd) && Normalized(r)
    requires Magnitude(r) == Magnitude(bd)
    requires r.negative == (bd.negative && !IsZero(r))
    ensures Value(r) == Value(bd)
  {
    ZeroMagnitude(r);
    ValueSign(r);
    ValueSign(bd);
  }

  /** On a canonical record neither loop erases anything. */
  lemma KeptCanonical(bd: BigDouble, r: BigDouble, start: nat)
    requires Normalized(bd)
    requires start == 0 || start < |bd.integerPart|
    requires forall k :: 0 <= k < start ==> bd.integerPart[k] == '0'
    requires r.integerPart == if bd.integerPart[start..] == [] then "0" else bd.integerPart[start..]
    requires |r.fractionPart| <= |bd.fractionPart| && r.fractionPart == bd.fractionPart[..|r.fractionPart|]
    requires forall k :: |r.fractionPart| <= k < |bd.fractionPart| ==> bd.fractionPart[k] == '0'
    requires r.negative == (bd.negative && !(r.integerPart == "0" && r.fractionPart == ""))
    ensures r == bd
  {
    assert start == 0;
    assert r.integerPart == bd.integerPart;
    assert |r.fractionPart| == |bd.fractionPart|;
  }

  /** Removing leading integer zeros (or filling an empty integer part with "0") and
      trailing fraction zeros keeps the magnitude. */
  lemma StrippedZeros(bd: BigDouble, r: BigDouble, start: nat)
    requires WellFormed(bd) && WellFormed(r)
    requires bd.integerPart == Zeros(start) + r.integerPart || (bd.integerPart == [] && r.integerPart == "0")
    requires |r.fractionPart| <= |bd.fractionPart|
    requires bd.fractionPart == r.fractionPart + Zeros(|bd.fractionPart| - |r.fractionPart|)
    ensures Magnitude(r) == Magnitude(bd)
  {
    var k := |bd.fractionPart|;
    assert Aligned(r, k) == r.integerPart + bd.fractionPart;
    assert Aligned(bd, k) == bd.integerPart + bd.fractionPart;
    if bd.integerPart == Zeros(start) + r.integerPart {
      assert Aligned(bd, k) == Zeros(start) + Aligned(r, k);
      LeadingZeros(start, Aligned(r, k));
    } else {
      assert Aligned(r, k) == Zeros(1) + Aligned(bd, k);
      LeadingZeros(1, Aligned(bd, k));
    }
    CompareAt(r, bd, k);
  }
}
