/** parseStringToBigDouble (main.cpp:105-141). */
module Parser {
  import opened Digits
  import opened Decimal
  import opened Validator
  import opened Normalizer

  /** Reads the sign, appends the integer digits onto "0", reads the fraction digits
      after the point and normalizes. The C++ function reads s[0] without checking, so
      it is only called on text that isValidDouble accepted. */
  method ParseStringToBigDouble(s: string) returns (result: BigDouble)
    requires IsDecimalText(s)
    ensures Normalized(result)
    ensures Value(result) == TextValue(s)
    ensures result.negative == (s[0] == '-' && !IsZero(result))
  {
    var negative := false;
    var integerPart := "0";
    var fractionPart := "";

    var i := 0;
    var n := |s|;
    if s[i] == '+' || s[i] == '-' {
      if s[i] == '-' {
        negative := true;
      }
      i := i + 1;
    }
    ghost var start := i;
    assert start == SignLength(s);

    while i < n && IsDigit(s[i])
      invariant start <= i <= n
      invariant |integerPart| == 1 + i - start && integerPart[0] == '0'
      invariant forall k :: start <= k < i ==> IsDigit(s[k]) && integerPart[1 + k - start] == s[k]
    {
      integerPart := integerPart + [s[i]];
      i := i + 1;
    }
    ghost var pointAt := i;

    if i < n && s[i] == '.' {
      i := i + 1;
      while i < n && IsDigit(s[i])
        invariant pointAt + 1 <= i <= n
        invariant |fractionPart| == i - pointAt - 1
        invariant forall k :: pointAt + 1 <= k < i ==> IsDigit(s[k]) && fractionPart[k - pointAt - 1] == s[k]
      {
        fractionPart := fractionPart + [s[i]];
        i := i + 1;
      }
    }
    var parsed := BigDouble(negative, integerPart, fractionPart);
    ScannedLiteral(s, start, pointAt, i, parsed);
    result := Normalize(parsed);
  }

  /** What the two scanning loops found: "0" followed by the integer digits, which end at
      pointAt, and, for a valid text, the fraction digits from after the point to the end.
      Together they denote the number the text does. */
  lemma ScannedLiteral(s: string, start: nat, pointAt: nat, end: nat, parsed: BigDouble)
    requires IsDecimalText(s)
    requires start == SignLength(s) && parsed.negative == (|s| > 0 && s[0] == '-')
    requires start <= pointAt <= end <= |s|
    requires |parsed.integerPart| == 1 + pointAt - start && parsed.integerPart[0] == '0'
    requires forall k :: start <= k < pointAt ==> IsDigit(s[k]) && parsed.integerPart[1 + k - start] == s[k]
    requires pointAt < |s| ==> !IsDigit(s[pointAt])
    requires if pointAt < |s| && s[pointAt] == '.'
             then pointAt < end && (end < |s| ==> !IsDigit(s[end]))
             else end == pointAt
    requires |parsed.fractionPart| == if end == pointAt then 0 else end - pointAt - 1
    requires forall k :: pointAt + 1 <= k < end ==> IsDigit(s[k]) && parsed.fractionPart[k - pointAt - 1] == s[k]
    ensures WellFormed(parsed) && Value(parsed) == TextValue(s)
  {
    ScannedParts(s, start, pointAt, end, parsed);
    var literal := Literal(s);
    NoZeros(literal.fractionPart);
    StrippedZeros(parsed, literal, 1);
    SignedAlike(parsed, literal);
  }

  /** The scanned parts are the literal's, behind one extra leading "0". */
  lemma ScannedParts(s: string, start: nat, pointAt: nat, end: nat, parsed: BigDouble)
    requires IsDecimalText(s)
    requires start == SignLength(s) && parsed.negative == (|s| > 0 && s[0] == '-')
    requires start <= pointAt <= end <= |s|
    requires |parsed.integerPart| == 1 + pointAt - start && parsed.integerPart[0] == '0'
    requires forall k :: start <= k < pointAt ==> IsDigit(s[k]) && parsed.integerPart[1 + k - start] == s[k]
    requires pointAt < |s| ==> !IsDigit(s[pointAt])
    requires if pointAt < |s| && s[pointAt] == '.'
             then pointAt < end && (end < |s| ==> !IsDigit(s[end]))
             else end == pointAt
    requires |parsed.fractionPart| == if end == pointAt then 0 else end - pointAt - 1
    requires forall k :: pointAt + 1 <= k < end ==> IsDigit(s[k]) && parsed.fractionPart[k - pointAt - 1] == s[k]
    ensures parsed.integerPart == Zeros(1) + Literal(s).integerPart
    ensures parsed.fractionPart == Literal(s).fractionPart
  {
    assert DigitsBetween(s, start, pointAt);
    assert DigitsBetween(s, pointAt + 1, end);
    ScanEnds(s, start, pointAt, end);
    LiteralAt(s, pointAt);
    IntegerScanned(parsed.integerPart, s, start, pointAt);
    if pointAt < |s| {
      FractionScanned(parsed.fractionPart, s, pointAt + 1);
    } else {
      assert parsed.fractionPart == "";
    }
  }

  /** For a valid text, the integer loop stopped at the first point or at the end, and
      the fraction loop, when it ran, at the end. */
  lemma ScanEnds(s: string, start: nat, pointAt: nat, end: nat)
    requires IsDecimalText(s) && start == SignLength(s) && start <= pointAt <= end <= |s|
    requires DigitsBetween(s, start, pointAt)
    requires pointAt < |s| ==> !IsDigit(s[pointAt])
    requires if pointAt < |s| && s[pointAt] == '.'
             then pointAt < end && (end < |s| ==> !IsDigit(s[end])) && DigitsBetween(s, pointAt + 1, end)
             else end == pointAt
    ensures PointIndex(s, start) == pointAt
    ensures pointAt < |s| ==> s[pointAt] == '.' && end == |s|
  {
    if pointAt < |s| && s[pointAt] == '.' {
      GrammarWithPoint(s, pointAt, end);
    } else {
      GrammarWithoutPoint(s, pointAt);
    }
  }

  /** The literal's parts, once the first point (or the end) is known to be at p. */
  lemma LiteralAt(s: string, p: nat)
    requires IsDecimalText(s) && p == PointIndex(s, SignLength(s))
    ensures Literal(s).integerPart == s[SignLength(s)..p]
    ensures Literal(s).fractionPart == if p < |s| then s[p + 1..] else ""
  {
  }

  /** The integer loop appended s[lo..hi] onto "0". */
  lemma IntegerScanned(part: string, s: string, lo: nat, hi: nat)
    requires lo <= hi <= |s| && |part| == 1 + hi - lo && part[0] == '0'
    requires forall k :: lo <= k < hi ==> IsDigit(s[k]) && part[1 + k - lo] == s[k]
    ensures part == Zeros(1) + s[lo..hi]
  {
    CopiedRun(part, 1, s, lo, hi);
    assert part[..1] == Zeros(1);
  }

  /** The fraction loop copied the rest of the text from lo on. */
  lemma FractionScanned(part: string, s: string, lo: nat)
    requires lo <= |s| && |part| == |s| - lo
    requires forall k :: lo <= k < |s| ==> IsDigit(s[k]) && part[k - lo] == s[k]
    ensures part == s[lo..]
  {
  }

  /** Padding with no zeros; a lemma of its own rather than an inline assert, which
      keeps the caller's proof cheap on every solver seed. */
  lemma NoZeros(s: string)
    ensures s == s + Zeros(0)
  {
  }

  /** A loop that appended s[lo..hi] one character at a time after off characters. */
  lemma CopiedRun(part: string, off: nat, s: string, lo: nat, hi: nat)
    requires lo <= hi <= |s| && |part| == off + hi - lo
    requires forall k :: lo <= k < hi ==> part[off + k - lo] == s[k]
    ensures part == part[..off] + s[lo..hi]
  {
  }
}
