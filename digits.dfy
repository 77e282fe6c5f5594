/** Decimal digit strings: the character-level vocabulary of main.cpp
    (std::isdigit, `c - '0'`, `'0' + d`, padding with '0', std::reverse and
    std::string ordering) and the natural number a digit string denotes. */
module Digits {

  /** `std::isdigit` restricted to ASCII. */
  predicate IsDigit(c: char) {
    '0' <= c <= '9'
  }

  predicate AllDigits(s: string) {
    forall i :: 0 <= i < |s| ==> IsDigit(s[i])
  }

  lemma AllDigitsSplit(a: string, b: string)
    requires AllDigits(a + b)
    ensures AllDigits(a) && AllDigits(b)
  {
    forall i | 0 <= i < |a| ensures IsDigit(a[i]) { assert a[i] == (a + b)[i]; }
    forall i | 0 <= i < |b| ensures IsDigit(b[i]) { assert b[i] == (a + b)[|a| + i]; }
  }

  /** `c - '0'` */
  function DigitValue(c: char): nat
    requires IsDigit(c)
  {
    c as int - '0' as int
  }

  /** `(char)('0' + d)` */
  function DigitChar(d: int): (c: char)
    requires 0 <= d <= 9
    ensures IsDigit(c) && DigitValue(c) == d
  {
    ('0' as int + d) as char
  }

  /** `std::string(n, '0')` */
  function Zeros(n: nat): (z: string)
    ensures |z| == n && AllDigits(z)
    ensures forall i :: 0 <= i < n ==> z[i] == '0'
  {
    seq(n, _ => '0')
  }

  function Pow10(n: nat): (p: nat)
    ensures p >= 1
  {
    if n == 0 then 1 else 10 * Pow10(n - 1)
  }

  /** The natural number denoted by a digit string, most significant digit first;
      the empty string denotes 0. */
  function DigitsValue(s: string): nat
    requires AllDigits(s)
  {
    if s == [] then 0 else DigitsValue(s[..|s| - 1]) * 10 + DigitValue(s[|s| - 1])
  }

  /** `std::reverse` */
  function Reverse(s: string): (r: string)
    ensures |r| == |s|
    ensures forall i :: 0 <= i < |s| ==> r[i] == s[|s| - 1 - i]
  {
    seq(|s|, i requires 0 <= i < |s| => s[|s| - 1 - i])
  }

  /** `a < b` on std::string: lexicographic order, a proper prefix first. */
  function LexLess(a: string, b: string): bool {
    if a == [] then b != []
    else if b == [] then false
    else if a[0] != b[0] then a[0] < b[0]
    else LexLess(a[1..], b[1..])
  }

  /** Pow10 at two equal exponents, so that a caller can pass each as written; this
      keeps the caller's proof cheap on every solver seed. */
  lemma Pow10Same(m: nat, n: nat)
    requires m == n
    ensures Pow10(m) == Pow10(n)
  {
  }

  /** One more power of ten, at exponents the caller passes as written. */
  lemma Pow10Next(m: nat, n: nat)
    requires m == n + 1
    ensures Pow10(m) == 10 * Pow10(n)
  {
  }

  lemma Pow10Add(m: nat, n: nat)
    ensures Pow10(m + n) == Pow10(m) * Pow10(n)
  {
    if m > 0 {
      Pow10Add(m - 1, n);
      assert Pow10(m + n) == 10 * Pow10(m - 1 + n);
    }
  }

  lemma Pow10Monotone(m: nat, n: nat)
    requires m <= n
    ensures Pow10(m) <= Pow10(n)
  {
    if m < n {
      Pow10Monotone(m, n - 1);
    }
  }

  lemma ReverseAppend(s: string, c: char)
    ensures Reverse(s + [c]) == [c] + Reverse(s)
  {
    assert forall i :: 0 < i <= |s| ==> Reverse(s + [c])[i] == Reverse(s)[i - 1];
  }

  /** The digit pushed last comes first once reversed, ahead of what follows. */
  lemma ReverseAppendTo(s: string, c: char, t: string)
    ensures Reverse(s + [c]) + t == [c] + (Reverse(s) + t)
  {
    ReverseAppend(s, c);
  }

  /** A suffix of s that starts one index earlier is that character in front. */
  lemma SliceCons(s: string, i: nat, t: string)
    requires i < |s|
    ensures s[i..] + t == [s[i]] + (s[i + 1..] + t)
  {
    assert s[i..] == [s[i]] + s[i + 1..];
  }

  /** Reading a digit string as a number splits at any point. */
  lemma {:induction false} ValueConcat(a: string, b: string)
    requires AllDigits(a) && AllDigits(b)
    ensures AllDigits(a + b)
    ensures DigitsValue(a + b) == DigitsValue(a) * Pow10(|b|) + DigitsValue(b)
  {
    if b == [] {
      assert a + b == a;
    } else {
      var b', c := b[..|b| - 1], b[|b| - 1];
      ValueConcat(a, b');
      assert (a + b)[..|a + b| - 1] == a + b' && (a + b)[|a + b| - 1] == c;
      Pow10Next(|b|, |b'|);
      ConcatArith(DigitsValue(a), DigitsValue(b'), DigitsValue(a + b'), DigitValue(c), Pow10(|b'|));
    }
  }

  /** The arithmetic of one more digit at the end of a concatenation. */
  lemma ConcatArith(x: int, y: int, xy: int, d: int, p: int)
    requires xy == x * p + y
    ensures xy * 10 + d == x * (10 * p) + (y * 10 + d)
  {
  }

  lemma ValueCons(c: char, s: string)
    requires IsDigit(c) && AllDigits(s)
    ensures AllDigits([c] + s)
    ensures DigitsValue([c] + s) == DigitValue(c) * Pow10(|s|) + DigitsValue(s)
  {
    ValueConcat([c], s);
    assert DigitsValue([c]) == DigitValue(c) by {
      assert [c][..0] == [];
    }
  }

  /** An n-digit string denotes less than 10^n. */
  lemma {:induction false} ValueBound(s: string)
    requires AllDigits(s)
    ensures DigitsValue(s) < Pow10(|s|)
  {
    if s != [] {
      ValueBound(s[..|s| - 1]);
    }
  }

  lemma {:induction false} ValueOfZeros(n: nat)
    ensures DigitsValue(Zeros(n)) == 0
  {
    if n > 0 {
      assert Zeros(n)[..n - 1] == Zeros(n - 1);
      ValueOfZeros(n - 1);
    }
  }

  /** Leading zeros do not change the number. */
  lemma LeadingZeros(n: nat, s: string)
    requires AllDigits(s)
    ensures AllDigits(Zeros(n) + s)
    ensures DigitsValue(Zeros(n) + s) == DigitsValue(s)
  {
    ValueConcat(Zeros(n), s);
    ValueOfZeros(n);
  }

  /** Trailing zeros scale the number by a power of ten. */
  lemma TrailingZeros(s: string, n: nat)
    requires AllDigits(s)
    ensures AllDigits(s + Zeros(n))
    ensures DigitsValue(s + Zeros(n)) == DigitsValue(s) * Pow10(n)
  {
    ValueConcat(s, Zeros(n));
    ValueOfZeros(n);
  }

  /** A string without a leading zero denotes at least 10^(n-1). */
  lemma LowerBound(s: string)
    requires AllDigits(s) && |s| >= 1 && s[0] != '0'
    ensures DigitsValue(s) >= Pow10(|s| - 1)
  {
    ValueCons(s[0], s[1..]);
    assert [s[0]] + s[1..] == s;
  }

  /** A longer string without a leading zero denotes a larger number. */
  lemma LongerIsGreater(a: string, b: string)
    requires AllDigits(a) && AllDigits(b)
    requires |a| > |b| && a[0] != '0'
    ensures DigitsValue(a) > DigitsValue(b)
  {
    LowerBound(a);
    ValueBound(b);
    Pow10Monotone(|b|, |a| - 1);
  }

  lemma DominanceArith(x: nat, rx: nat, y: nat, ry: nat, p: nat)
    requires x > y && ry < p
    ensures x * p + rx > y * p + ry
  {
    assert x * p >= (y + 1) * p;
  }

  /** The more significant part decides when the less significant parts have equal length. */
  lemma Dominance(a: string, ra: string, b: string, rb: string)
    requires AllDigits(a) && AllDigits(ra) && AllDigits(b) && AllDigits(rb)
    requires |ra| == |rb| && DigitsValue(a) > DigitsValue(b)
    ensures AllDigits(a + ra) && AllDigits(b + rb)
    ensures DigitsValue(a + ra) > DigitsValue(b + rb)
  {
    ValueConcat(a, ra);
    ValueConcat(b, rb);
    ValueBound(rb);
    DominanceArith(DigitsValue(a), DigitsValue(ra), DigitsValue(b), DigitsValue(rb), Pow10(|ra|));
  }

  /** On strings of equal length, std::string order is numeric order. */
  lemma {:induction false} LexIsNumericOrder(a: string, b: string)
    requires AllDigits(a) && AllDigits(b) && |a| == |b|
    ensures LexLess(a, b) <==> DigitsValue(a) < DigitsValue(b)
  {
    if a != [] {
      ValueCons(a[0], a[1..]);
      ValueCons(b[0], b[1..]);
      assert [a[0]] + a[1..] == a;
      assert [b[0]] + b[1..] == b;
      if a[0] == b[0] {
        LexIsNumericOrder(a[1..], b[1..]);
      } else if a[0] < b[0] {
        Dominance([b[0]], b[1..], [a[0]], a[1..]);
      } else {
        Dominance([a[0]], a[1..], [b[0]], b[1..]);
      }
    }
  }

  /** Equal-length digit strings that denote the same number are equal. */
  lemma {:induction false} ValueInjective(a: string, b: string)
    requires AllDigits(a) && AllDigits(b) && |a| == |b|
    requires DigitsValue(a) == DigitsValue(b)
    ensures a == b
  {
    if a != [] {
      var n := |a| - 1;
      DigitCancel(DigitsValue(a[..n]), DigitsValue(b[..n]), DigitValue(a[n]), DigitValue(b[n]));
      ValueInjective(a[..n], b[..n]);
      assert a == a[..n] + [a[n]];
      assert b == b[..n] + [b[n]];
    }
  }

  /** The last digit and the number before it are recovered from x * 10 + d. */
  lemma DigitCancel(x: int, y: int, d: int, e: int)
    requires 0 <= d <= 9 && 0 <= e <= 9 && x * 10 + d == y * 10 + e
    ensures x == y && d == e
  {
  }

  /** Replacing the digit at index p moves the number by the old and the new digit's weight. */
  lemma ValueUpdate(s: string, p: nat, c: char)
    requires AllDigits(s) && p < |s| && IsDigit(c)
    ensures AllDigits(s[p := c])
    ensures DigitsValue(s[p := c]) + DigitValue(s[p]) * Pow10(|s| - 1 - p)
         == DigitsValue(s) + DigitValue(c) * Pow10(|s| - 1 - p)
  {
    var t := s[p := c];
    var pre, post := s[..p], s[p + 1..];
    var w := Pow10(|post|);
    var hi := DigitsValue(pre) * Pow10(|post| + 1);
    assert DigitsValue(s) == hi + (DigitValue(s[p]) * w + DigitsValue(post)) by {
      ValueSplit(s, p);
    }
    assert DigitsValue(t) == hi + (DigitValue(c) * w + DigitsValue(post)) by {
      ValueSplit(t, p);
      assert t[..p] == pre && t[p + 1..] == post;
    }
  }

  /** A digit string read around its digit at index p. */
  lemma ValueSplit(s: string, p: nat)
    requires AllDigits(s) && p < |s|
    ensures DigitsValue(s) == DigitsValue(s[..p]) * Pow10(|s| - p)
                            + (DigitValue(s[p]) * Pow10(|s| - 1 - p) + DigitsValue(s[p + 1..]))
  {
    var head, post := s[..p + 1], s[p + 1..];
    assert s == head + post;
    ValueSnoc(s, p);
    ValueConcat(head, post);
    Pow10Next(|s| - p, |s| - 1 - p);
    Pow10Same(|post|, |s| - 1 - p);
    SplitArith(DigitsValue(head), DigitsValue(s[..p]), DigitValue(s[p]), DigitsValue(post), Pow10(|s| - 1 - p));
  }

  /** The digits up to index p read as those before p followed by the digit at p. */
  lemma ValueSnoc(s: string, p: nat)
    requires AllDigits(s) && p < |s|
    ensures AllDigits(s[..p + 1]) && AllDigits(s[..p]) && AllDigits(s[p + 1..])
    ensures DigitsValue(s[..p + 1]) == DigitsValue(s[..p]) * 10 + DigitValue(s[p])
  {
    assert s[..p + 1][..p] == s[..p];
  }

  /** The arithmetic of reading one digit out of the middle. */
  lemma SplitArith(h: int, a: int, d: int, b: int, q: int)
    requires h == a * 10 + d
    ensures h * q + b == a * (10 * q) + (d * q + b)
  {
  }

  /** The loop subAbs and multiply run on a digit string: erase the leading '0' while
      more than one character is left. Only leading zeros go. */
  method StripLeadingZeros(digits: string) returns (rest: string, ghost stripped: nat)
    ensures digits == Zeros(stripped) + rest
    ensures |rest| <= 1 || rest[0] != '0'
    ensures |digits| >= 1 ==> |rest| >= 1
  {
    rest, stripped := digits, 0;
    assert digits == Zeros(0) + rest;
    while |rest| > 1 && rest[0] == '0'
      invariant digits == Zeros(stripped) + rest
      invariant |digits| >= 1 ==> |rest| >= 1
    {
      StripOne(stripped, rest);
      rest := rest[1..];
      stripped := stripped + 1;
    }
  }

  /** Dropping one leading '0' moves it into the zero prefix. */
  lemma StripOne(n: nat, s: string)
    requires |s| > 0 && s[0] == '0'
    ensures Zeros(n) + s == Zeros(n + 1) + s[1..]
  {
    assert Zeros(n + 1) == Zeros(n) + [s[0]];
  }
}
