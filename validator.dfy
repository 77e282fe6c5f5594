/** isValidDouble (main.cpp:67-102): the accepted decimal grammar, and the number a
    text in that grammar denotes. */
module Validator {
  import opened Digits
  import opened Decimal

  predicate IsSign(c: char) {
    c == '+' || c == '-'
  }

  /** Length of the optional leading sign. */
  function SignLength(s: string): (a: nat)
    ensures a <= |s|
  {
    if |s| > 0 && IsSign(s[0]) then 1 else 0
  }

  predicate DigitsBetween(s: string, lo: nat, hi: nat) {
    forall k :: lo <= k < hi && k < |s| ==> IsDigit(s[k])
  }

  /** Index of the first '.' at or after i, or |s| when there is none. */
  function PointIndex(s: string, i: nat): (p: nat)
    requires i <= |s|
    ensures i <= p <= |s|
    ensures p < |s| ==> s[p] == '.'
    ensures forall j :: i <= j < p ==> s[j] != '.'
    decreases |s| - i
  {
    if i == |s| || s[i] == '.' then i else PointIndex(s, i + 1)
  }

  /** The grammar: an optional sign, then digits up to the first '.'; after the point,
      one or more digits and nothing else; without a point, at least one digit. */
  ghost predicate IsDecimalText(s: string) {
    var a := SignLength(s);
    var p := PointIndex(s, a);
    && DigitsBetween(s, a, p)
    && if p < |s| then p + 1 < |s| && DigitsBetween(s, p + 1, |s|) else p > a
  }

  /** A point right after a run of digits is the first point. */
  lemma {:induction false} PointAfterDigits(s: string, i: nat, k: nat)
    requires i <= k < |s| && s[k] == '.' && DigitsBetween(s, i, k)
    ensures PointIndex(s, i) == k
    decreases k - i
  {
    if i < k {
      PointAfterDigits(s, i + 1, k);
    }
  }

  /** No point occurs within a run of digits. */
  lemma {:induction false} PointAfterRun(s: string, i: nat, q: nat)
    requires i <= q <= |s| && DigitsBetween(s, i, q)
    ensures PointIndex(s, i) >= q
    decreases q - i
  {
    if i < q {
      PointAfterRun(s, i + 1, q);
    }
  }

  /** The leading digit run ends at q and no point follows it. */
  lemma GrammarWithoutPoint(s: string, q: nat)
    requires SignLength(s) <= q <= |s| && DigitsBetween(s, SignLength(s), q)
    requires q < |s| ==> !IsDigit(s[q]) && s[q] != '.'
    ensures PointIndex(s, SignLength(s)) >= q
    ensures IsDecimalText(s) <==> q == |s| && q > SignLength(s)
  {
    PointAfterRun(s, SignLength(s), q);
  }

  /** The leading digit run ends at a point at q, and the next digit run ends at r. */
  lemma GrammarWithPoint(s: string, q: nat, r: nat)
    requires SignLength(s) <= q < |s| && s[q] == '.' && DigitsBetween(s, SignLength(s), q)
    requires q + 1 <= r <= |s| && DigitsBetween(s, q + 1, r)
    requires r < |s| ==> !IsDigit(s[r])
    ensures PointIndex(s, SignLength(s)) == q
    ensures IsDecimalText(s) <==> r == |s| && r > q + 1
  {
    PointAfterDigits(s, SignLength(s), q);
  }

  lemma DigitsSlice(s: string, lo: nat, hi: nat)
    requires lo <= hi <= |s| && DigitsBetween(s, lo, hi)
    ensures AllDigits(s[lo..hi])
  {
  }

  /** The sign, integer digits and fraction digits written in a valid text. */
  ghost function Literal(s: string): (d: BigDouble)
    requires IsDecimalText(s)
    ensures WellFormed(d)
  {
    var a := SignLength(s);
    var p := PointIndex(s, a);
    DigitsSlice(s, a, p);
    DigitsSlice(s, if p < |s| then p + 1 else p, |s|);
    BigDouble(|s| > 0 && s[0] == '-', s[a..p], if p < |s| then s[p + 1..] else "")
  }

  /** The exact number a valid text denotes. */
  ghost function TextValue(s: string): real
    requires IsDecimalText(s)
  {
    Value(Literal(s))
  }

  /** Walks an index over the text: optional sign, digits, then '.' and at least one
      digit; valid when some digit was seen and the whole text was consumed. */
  method IsValidDouble(s: string) returns (ok: bool)
    ensures ok <==> IsDecimalText(s)
  {
    if s == [] {
      return false;
    }
    var i := 0;
    var n := |s|;
    if s[i] == '+' || s[i] == '-' {
      i := i + 1;
    }
    ghost var start := i;

    var hasDigits := false;
    while i < n && IsDigit(s[i])
      invariant start <= i <= n
      invariant DigitsBetween(s, start, i)
      invariant hasDigits <==> i > start
    {
      hasDigits := true;
      i := i + 1;
    }
    ghost var pointAt := i;

    if i < n && s[i] == '.' {
      i := i + 1;
      var hasFractionDigits := false;
      while i < n && IsDigit(s[i])
        invariant pointAt + 1 <= i <= n
        invariant DigitsBetween(s, pointAt + 1, i)
        invariant hasFractionDigits <==> i > pointAt + 1
      {
        hasFractionDigits := true;
        i := i + 1;
      }
      GrammarWithPoint(s, pointAt, i);
      if !hasFractionDigits {
        return false;
      }
      hasDigits := true;
    } else {
      GrammarWithoutPoint(s, pointAt);
    }
    ok := hasDigits && i == n;
  }

  /** The grammar's boundary cases. */
  lemma GrammarExamples()
    ensures IsDecimalText("5") && IsDecimalText("+5") && IsDecimalText(".5")
    ensures IsDecimalText("+.5") && IsDecimalText("5.5")
    ensures !IsDecimalText("") && !IsDecimalText("+") && !IsDecimalText("5.")
    ensures !IsDecimalText("5.5.5") && !IsDecimalText("abc")
  {
    GrammarWithoutPoint("5", 1);
    GrammarWithoutPoint("+5", 2);
    GrammarWithPoint(".5", 0, 2);
    GrammarWithPoint("+.5", 1, 3);
    GrammarWithPoint("5.5", 1, 3);
    GrammarWithoutPoint("", 0);
    GrammarWithoutPoint("+", 1);
    GrammarWithPoint("5.", 1, 2);
    GrammarWithPoint("5.5.5", 1, 3);
    GrammarWithoutPoint("abc", 0);
  }
}
