/** add (main.cpp:190-365) with its helper lambdas absGreater, addAbs and subAbs. */
module Adder {
  import opened Digits
  import opened Decimal
  import opened Normalizer

  // ---------------------------------------------------------------------------
  // absGreater (main.cpp:193-216)

  /** The comparison of magnitudes that add uses to choose the subtraction order:
      integer lengths, then the integer digits as strings, then the fractions. */
  function AbsGreater(x: BigDouble, y: BigDouble): bool {
    if |x.integerPart| != |y.integerPart| then |x.integerPart| > |y.integerPart|
    else if x.integerPart != y.integerPart then LexLess(y.integerPart, x.integerPart)
    else if |x.fractionPart| != |y.fractionPart| then
      var minLen := if |x.fractionPart| < |y.fractionPart| then |x.fractionPart| else |y.fractionPart|;
      var xPart := x.fractionPart[..minLen];
      var yPart := y.fractionPart[..minLen];
      if xPart != yPart then LexLess(yPart, xPart)
      else |x.fractionPart| > |y.fractionPart|
    else LexLess(y.fractionPart, x.fractionPart)
  }

  /** On canonical records absGreater decides exactly whether |x| > |y|. */
  lemma AbsGreaterIsMagnitudeOrder(x: BigDouble, y: BigDouble)
    requires Normalized(x) && Normalized(y)
    ensures AbsGreater(x, y) <==> Magnitude(x) > Magnitude(y)
  {
    var k := if |x.fractionPart| < |y.fractionPart| then |y.fractionPart| else |x.fractionPart|;
    if |x.integerPart| != |y.integerPart| {
      IntegerLengthOrder(x, y, k);
    } else if x.integerPart != y.integerPart {
      IntegerDigitsOrder(x, y, k);
    } else if |x.fractionPart| != |y.fractionPart| {
      CompareAt(y, x, k);
      FractionOrder(x, y, k);
    } else {
      FractionDigitsOrder(x, y, k);
    }
  }

  /** Integer parts of different lengths (main.cpp:195-197). */
  lemma IntegerLengthOrder(x: BigDouble, y: BigDouble, k: nat)
    requires Normalized(x) && Normalized(y) && |x.integerPart| != |y.integerPart|
    requires k == if |x.fractionPart| < |y.fractionPart| then |y.fractionPart| else |x.fractionPart|
    ensures AbsGreater(x, y) <==> Magnitude(x) > Magnitude(y)
  {
    CompareAt(y, x, k);
    if |x.integerPart| > |y.integerPart| {
      LongerIsGreater(Aligned(x, k), Aligned(y, k));
    } else {
      LongerIsGreater(Aligned(y, k), Aligned(x, k));
    }
  }

  /** Integer parts of equal length that differ (main.cpp:199-201). */
  lemma IntegerDigitsOrder(x: BigDouble, y: BigDouble, k: nat)
    requires WellFormed(x) && WellFormed(y)
    requires |x.integerPart| == |y.integerPart| && x.integerPart != y.integerPart
    requires k == if |x.fractionPart| < |y.fractionPart| then |y.fractionPart| else |x.fractionPart|
    ensures AbsGreater(x, y) <==> Magnitude(x) > Magnitude(y)
  {
    CompareAt(y, x, k);
    AlignedSplit(x, k);
    AlignedSplit(y, k);
    LeadingOrder(x.integerPart, x.fractionPart + Zeros(k - |x.fractionPart|),
                 y.integerPart, y.fractionPart + Zeros(k - |y.fractionPart|));
  }

  /** The aligned digits are the integer part followed by the padded fraction. */
  lemma AlignedSplit(d: BigDouble, k: nat)
    requires WellFormed(d) && k >= |d.fractionPart|
    ensures Aligned(d, k) == d.integerPart + (d.fractionPart + Zeros(k - |d.fractionPart|))
    ensures AllDigits(d.fractionPart + Zeros(k - |d.fractionPart|))
  {
    AllDigitsSplit(d.fractionPart, Zeros(k - |d.fractionPart|));
  }

  /** Equal integer parts, fractions of equal length (main.cpp:214). */
  lemma FractionDigitsOrder(x: BigDouble, y: BigDouble, k: nat)
    requires Normalized(x) && Normalized(y)
    requires x.integerPart == y.integerPart && |x.fractionPart| == |y.fractionPart| == k
    ensures AbsGreater(x, y) <==> Magnitude(x) > Magnitude(y)
  {
    CompareAt(y, x, k);
    assert Aligned(x, k) == x.integerPart + x.fractionPart;
    assert Aligned(y, k) == y.integerPart + y.fractionPart;
    LexIsNumericOrder(y.fractionPart, x.fractionPart);
    ValueConcat(x.integerPart, x.fractionPart);
    ValueConcat(y.integerPart, y.fractionPart);
  }

  /** Equal-length heads that differ decide the order of the whole strings, as
      std::string comparison of the heads does. */
  lemma LeadingOrder(a: string, ra: string, b: string, rb: string)
    requires AllDigits(a) && AllDigits(ra) && AllDigits(b) && AllDigits(rb)
    requires |a| == |b| && |ra| == |rb| && a != b
    ensures AllDigits(a + ra) && AllDigits(b + rb)
    ensures LexLess(b, a) <==> DigitsValue(a + ra) > DigitsValue(b + rb)
  {
    LexTotal(a, b);
    LexIsNumericOrder(a, b);
    LexIsNumericOrder(b, a);
    if LexLess(b, a) {
      Dominance(a, ra, b, rb);
    } else {
      Dominance(b, rb, a, ra);
    }
  }

  /** Equal integer parts, fractions of different lengths (main.cpp:203-212). */
  lemma FractionOrder(x: BigDouble, y: BigDouble, k: nat)
    requires Normalized(x) && Normalized(y)
    requires x.integerPart == y.integerPart && |x.fractionPart| != |y.fractionPart|
    requires k == if |x.fractionPart| < |y.fractionPart| then |y.fractionPart| else |x.fractionPart|
    ensures AllDigits(Aligned(x, k)) && AllDigits(Aligned(y, k))
    ensures AbsGreater(x, y) <==> DigitsValue(Aligned(x, k)) > DigitsValue(Aligned(y, k))
  {
    var fx, fy := x.fractionPart, y.fractionPart;
    var px, py := fx + Zeros(k - |fx|), fy + Zeros(k - |fy|);
    assert Aligned(x, k) == x.integerPart + px;
    assert Aligned(y, k) == x.integerPart + py;
    PaddedOrder(fx, fy, if |fx| < |fy| then |fx| else |fy|, k);
    ValueConcat(x.integerPart, px);
    ValueConcat(x.integerPart, py);
    Pow10Same(|px|, |py|);
  }

  /** The fraction branch of absGreater on its own: it orders the two fractions as the
      numbers they denote once padded with zeros to a common length k. */
  lemma PaddedOrder(fx: string, fy: string, m: nat, k: nat)
    requires AllDigits(fx) && AllDigits(fy) && |fx| != |fy|
    requires m == if |fx| < |fy| then |fx| else |fy|
    requires fx != [] ==> fx[|fx| - 1] != '0'
    requires fy != [] ==> fy[|fy| - 1] != '0'
    requires k == if |fx| < |fy| then |fy| else |fx|
    ensures AllDigits(fx + Zeros(k - |fx|)) && AllDigits(fy + Zeros(k - |fy|))
    ensures (if fx[..m] != fy[..m] then LexLess(fy[..m], fx[..m]) else |fx| > |fy|)
            <==> DigitsValue(fx + Zeros(k - |fx|)) > DigitsValue(fy + Zeros(k - |fy|))
  {
    if fx[..m] != fy[..m] {
      DifferingPadded(fx, fy, m, k);
    } else if |fx| > |fy| {
      LongerPadded(fx, fy, m, k);
    } else {
      LongerPadded(fy, fx, m, k);
    }
  }

  /** Fractions whose first m digits differ are ordered by those digits. */
  lemma DifferingPadded(fx: string, fy: string, m: nat, k: nat)
    requires AllDigits(fx) && AllDigits(fy) && m <= |fx| <= k && m <= |fy| <= k
    requires fx[..m] != fy[..m]
    ensures AllDigits(fx + Zeros(k - |fx|)) && AllDigits(fy + Zeros(k - |fy|))
    ensures LexLess(fy[..m], fx[..m]) <==> DigitsValue(fx + Zeros(k - |fx|)) > DigitsValue(fy + Zeros(k - |fy|))
  {
    SplitPadded(fx, m, k);
    SplitPadded(fy, m, k);
    LeadingOrder(fx[..m], fx[m..] + Zeros(k - |fx|), fy[..m], fy[m..] + Zeros(k - |fy|));
  }

  /** A padded fraction is its first m digits followed by the padded rest. */
  lemma SplitPadded(f: string, m: nat, k: nat)
    requires AllDigits(f) && m <= |f| <= k
    ensures f + Zeros(k - |f|) == f[..m] + (f[m..] + Zeros(k - |f|))
    ensures |f[m..] + Zeros(k - |f|)| == k - m
    ensures AllDigits(f[..m]) && AllDigits(f[m..] + Zeros(k - |f|))
  {
    AllDigitsSplit(f[m..], Zeros(k - |f|));
  }

  /** Of two fractions that agree on the shorter one's digits, the longer (ending in a
      non-zero digit) is the greater once both are padded. */
  lemma LongerPadded(f: string, g: string, m: nat, k: nat)
    requires AllDigits(f) && AllDigits(g) && m == |g| < |f| == k
    requires f[|f| - 1] != '0' && f[..m] == g
    ensures AllDigits(f + Zeros(k - |f|)) && AllDigits(g + Zeros(k - |g|))
    ensures DigitsValue(f + Zeros(k - |f|)) > DigitsValue(g + Zeros(k - |g|))
  {
    var tail := f[m..];
    assert f + Zeros(k - |f|) == g + tail;
    assert tail[|tail| - 1] == f[|f| - 1];
    LongerFraction(g, tail, k - m);
  }

  /** A shared head followed by digits ending in a non-zero digit exceeds the head
      followed by zeros only. */
  lemma LongerFraction(head: string, tail: string, n: nat)
    requires AllDigits(head) && AllDigits(tail) && |tail| == n
    requires tail != [] && tail[|tail| - 1] != '0'
    ensures AllDigits(head + tail) && AllDigits(head + Zeros(n))
    ensures DigitsValue(head + tail) > DigitsValue(head + Zeros(n))
  {
    ValueConcat(head, tail);
    TrailingZeros(head, n);
    assert DigitsValue(tail) >= 1;
  }

  /** Two different strings of equal length are ordered one way or the other. */
  lemma {:induction false} LexTotal(a: string, b: string)
    requires |a| == |b| && a != b
    ensures LexLess(a, b) || LexLess(b, a)
  {
    if a[0] == b[0] {
      assert a == [a[0]] + a[1..] && b == [b[0]] + b[1..];
      LexTotal(a[1..], b[1..]);
    }
  }

  // ---------------------------------------------------------------------------
  // Column arithmetic shared by addAbs and subAbs. The digits produced so far are
  // pushed least significant first, as the C++ push_back loops do; acc below is
  // what they read once reversed.

  /** What a carry (or borrow) of c out of the lowest n columns is worth. */
  function CarryValue(c: int, n: nat): nat
    requires 0 <= c <= 1
  {
    if c == 0 then 0 else Pow10(n)
  }

  lemma CarryValueIs(c: int, n: nat)
    requires 0 <= c <= 1
    ensures CarryValue(c, n) == c * Pow10(n)
    ensures n > 0 ==> CarryValue(c, n) == c * (10 * Pow10(n - 1))
  {
  }

  /** One column of addAbs: digits cx and cy plus the carry give digit d and carry c'. */
  lemma AddColumn(acc: string, carry: int, tx: string, ty: string, cx: char, cy: char, d: int, carry': int)
    requires AllDigits(acc) && AllDigits(tx) && AllDigits(ty) && IsDigit(cx) && IsDigit(cy)
    requires |tx| == |acc| && |ty| == |acc| && 0 <= d <= 9 && 0 <= carry <= 1 && 0 <= carry' <= 1
    requires DigitsValue(acc) + CarryValue(carry, |acc|) == DigitsValue(tx) + DigitsValue(ty)
    requires d + 10 * carry' == DigitValue(cx) + DigitValue(cy) + carry
    ensures AllDigits([DigitChar(d)] + acc) && AllDigits([cx] + tx) && AllDigits([cy] + ty)
    ensures DigitsValue([DigitChar(d)] + acc) + CarryValue(carry', |acc| + 1)
         == DigitsValue([cx] + tx) + DigitsValue([cy] + ty)
  {
    ValueCons(DigitChar(d), acc);
    ValueCons(cx, tx);
    ValueCons(cy, ty);
    CarryValueIs(carry, |acc|);
    CarryValueIs(carry', |acc| + 1);
    AddArith(DigitsValue(acc), carry, DigitsValue(tx), DigitsValue(ty), Pow10(|acc|),
             DigitValue(cx), DigitValue(cy), d, carry');
  }

  /** One column of subAbs: digit cx less the borrow and cy give digit d and borrow b'. */
  lemma SubColumn(acc: string, borrow: int, tx: string, ty: string, cx: char, cy: char, d: int, borrow': int)
    requires AllDigits(acc) && AllDigits(tx) && AllDigits(ty) && IsDigit(cx) && IsDigit(cy)
    requires |tx| == |acc| && |ty| == |acc| && 0 <= d <= 9 && 0 <= borrow <= 1 && 0 <= borrow' <= 1
    requires DigitsValue(acc) + DigitsValue(ty) == DigitsValue(tx) + CarryValue(borrow, |acc|)
    requires d - 10 * borrow' == DigitValue(cx) - borrow - DigitValue(cy)
    ensures AllDigits([DigitChar(d)] + acc) && AllDigits([cx] + tx) && AllDigits([cy] + ty)
    ensures DigitsValue([DigitChar(d)] + acc) + DigitsValue([cy] + ty)
         == DigitsValue([cx] + tx) + CarryValue(borrow', |acc| + 1)
  {
    ValueCons(DigitChar(d), acc);
    ValueCons(cx, tx);
    ValueCons(cy, ty);
    CarryValueIs(borrow, |acc|);
    CarryValueIs(borrow', |acc| + 1);
    SubArith(DigitsValue(acc), borrow, DigitsValue(tx), DigitsValue(ty), Pow10(|acc|),
             DigitValue(cx), DigitValue(cy), d, borrow');
  }

  // Ring identities behind the column lemmas, stated on plain integers.

  lemma AddArith(r: int, c: int, x: int, y: int, p: int, dx: int, dy: int, d: int, c': int)
    requires r + c * p == x + y
    requires d + 10 * c' == dx + dy + c
    ensures d * p + r + c' * (10 * p) == dx * p + x + (dy * p + y)
  {
    assert d * p + c' * (10 * p) == (d + 10 * c') * p;
    assert (dx + dy + c) * p == dx * p + dy * p + c * p;
  }

  lemma SubArith(r: int, b: int, x: int, y: int, p: int, dx: int, dy: int, d: int, b': int)
    requires r + y == x + b * p
    requires d - 10 * b' == dx - b - dy
    ensures (d * p + r) + (dy * p + y) == (dx * p + x) + b' * (10 * p)
  {
    assert d * p - b' * (10 * p) == (d - 10 * b') * p;
    assert (dx - b - dy) * p == dx * p - b * p - dy * p;
  }

  /** Padding the integer part on the left and the fraction on the right keeps the
      aligned digits' value. */
  lemma Padded(d: BigDouble, lead: nat, k: nat)
    requires WellFormed(d) && k >= |d.fractionPart|
    ensures AllDigits(Zeros(lead) + d.integerPart) && AllDigits(d.fractionPart + Zeros(k - |d.fractionPart|))
    ensures AllDigits(Aligned(d, k))
    ensures DigitsValue((Zeros(lead) + d.integerPart) + (d.fractionPart + Zeros(k - |d.fractionPart|)))
         == DigitsValue(Aligned(d, k))
  {
    MagnitudeAt(d, k);
    assert (Zeros(lead) + d.integerPart) + (d.fractionPart + Zeros(k - |d.fractionPart|))
        == Zeros(lead) + Aligned(d, k);
    LeadingZeros(lead, Aligned(d, k));
  }

  // ---------------------------------------------------------------------------
  // addAbs (main.cpp:219-275)

  /** Appending nothing; a lemma of its own rather than an inline assert, which keeps
      the caller's proof cheap on every solver seed. */
  lemma EmptyTail(s: string)
    ensures s + "" == s
  {
  }

  /** The padding step addAbs and subAbs share: the shorter integer part gets leading
      zeros up to the length of the longer one. */
  method PadIntegers(intX: string, intY: string) returns (paddedX: string, paddedY: string, ghost padX: nat, ghost padY: nat)
    ensures paddedX == Zeros(padX) + intX && paddedY == Zeros(padY) + intY
    ensures |paddedX| == |paddedY| && (padX == 0 || padY == 0)
  {
    paddedX, paddedY := intX, intY;
    padX, padY := 0, 0;
    assert intX == Zeros(0) + intX && intY == Zeros(0) + intY;
    if |paddedX| < |paddedY| {
      padX := |paddedY| - |paddedX|;
      paddedX := Zeros(|paddedY| - |paddedX|) + paddedX;
    } else if |paddedY| < |paddedX| {
      padY := |paddedX| - |paddedY|;
      paddedY := Zeros(|paddedX| - |paddedY|) + paddedY;
    }
  }

  /** Where the addAbs column loop stands once columns i.. of xs and ys are added: the
      digits pushed so far, reversed and followed by the columns acc already added to
      the right, read with the carry as the sum of the same columns of both operands. */
  ghost predicate AddedSoFar(pushed: string, carry: int, xs: string, ys: string, i: nat,
                             acc: string, tx: string, ty: string)
    requires i <= |xs| && |xs| == |ys|
  {
    && AllDigits(Reverse(pushed) + acc) && AllDigits(xs[i..] + tx) && AllDigits(ys[i..] + ty)
    && 0 <= carry <= 1
    && DigitsValue(Reverse(pushed) + acc) + CarryValue(carry, |xs| - i + |acc|)
       == DigitsValue(xs[i..] + tx) + DigitsValue(ys[i..] + ty)
  }

  /** One pass of the addAbs loop body keeps AddedSoFar. */
  lemma AddStep(pushed: string, carry: int, xs: string, ys: string, i: nat,
                acc: string, tx: string, ty: string, d: int, carry': int)
    requires i < |xs| && |xs| == |ys| && AllDigits(xs) && AllDigits(ys)
    requires |pushed| == |xs| - 1 - i && |tx| == |acc| && |ty| == |acc|
    requires AddedSoFar(pushed, carry, xs, ys, i + 1, acc, tx, ty)
    requires 0 <= d <= 9 && 0 <= carry' <= 1
    requires d + 10 * carry' == DigitValue(xs[i]) + DigitValue(ys[i]) + carry
    ensures AddedSoFar(pushed + [DigitChar(d)], carry', xs, ys, i, acc, tx, ty)
  {
    var done := Reverse(pushed) + acc;
    AddColumn(done, carry, xs[i + 1..] + tx, ys[i + 1..] + ty, xs[i], ys[i], d, carry');
    ReverseAppendTo(pushed, DigitChar(d), acc);
    SliceCons(xs, i, tx);
    SliceCons(ys, i, ty);
  }

  /** The column loop addAbs runs over the fractions and then over the integer parts:
      adds two equal-length digit strings right to left with the carry coming in,
      pushing one digit per column. The ghost acc, tx and ty are the columns already
      added (to the right of xs and ys) and their sum, so that the result speaks of
      all columns so far. */
  method AddColumns(xs: string, ys: string, carryIn: int, ghost acc: string, ghost tx: string, ghost ty: string)
    returns (pushed: string, carry: int)
    requires AllDigits(xs) && AllDigits(ys) && |xs| == |ys|
    requires AllDigits(acc) && AllDigits(tx) && AllDigits(ty) && |tx| == |acc| && |ty| == |acc|
    requires 0 <= carryIn <= 1
    requires DigitsValue(acc) + CarryValue(carryIn, |acc|) == DigitsValue(tx) + DigitsValue(ty)
    ensures |pushed| == |xs| && 0 <= carry <= 1
    ensures AllDigits(Reverse(pushed) + acc) && AllDigits(xs + tx) && AllDigits(ys + ty)
    ensures DigitsValue(Reverse(pushed) + acc) + CarryValue(carry, |Reverse(pushed) + acc|)
         == DigitsValue(xs + tx) + DigitsValue(ys + ty)
  {
    carry := carryIn;
    pushed := "";
    var i := |xs| - 1;
    assert xs[|xs|..] + tx == tx && ys[|ys|..] + ty == ty && Reverse(pushed) + acc == acc;
    while i >= 0
      invariant -1 <= i < |xs| && |pushed| == |xs| - 1 - i
      invariant AddedSoFar(pushed, carry, xs, ys, i + 1, acc, tx, ty)
    {
      var digitX := DigitValue(xs[i]);
      var digitY := DigitValue(ys[i]);
      var sum := digitX + digitY + carry;
      AddStep(pushed, carry, xs, ys, i, acc, tx, ty, sum % 10, sum / 10);
      carry := sum / 10;
      sum := sum % 10;
      pushed := pushed + [DigitChar(sum)];
      i := i - 1;
    }
    AddedAll(pushed, carry, xs, ys, acc, tx, ty);
  }

  /** Once every column is added, AddedSoFar speaks of the whole strings. */
  lemma AddedAll(pushed: string, carry: int, xs: string, ys: string, acc: string, tx: string, ty: string)
    requires |xs| == |ys| && |pushed| == |xs| && AddedSoFar(pushed, carry, xs, ys, 0, acc, tx, ty)
    ensures AllDigits(Reverse(pushed) + acc) && AllDigits(xs + tx) && AllDigits(ys + ty)
    ensures DigitsValue(Reverse(pushed) + acc) + CarryValue(carry, |Reverse(pushed) + acc|)
         == DigitsValue(xs + tx) + DigitsValue(ys + ty)
  {
    assert |xs| - 0 + |acc| == |Reverse(pushed) + acc|;
    assert xs[0..] == xs && ys[0..] == ys;
  }

  /** Adds the magnitudes: pads both fractions to the longer one, adds their columns,
      carries into the padded integer columns, pushes a final carry and normalizes. */
  method AddAbs(x: BigDouble, y: BigDouble) returns (res: BigDouble)
    requires WellFormed(x) && WellFormed(y)
    ensures Normalized(res) && !res.negative
    ensures Magnitude(res) == Magnitude(x) + Magnitude(y)
  {
    var maxFrac := if |x.fractionPart| < |y.fractionPart| then |y.fractionPart| else |x.fractionPart|;
    var fracX := x.fractionPart + Zeros(maxFrac - |x.fractionPart|);
    var fracY := y.fractionPart + Zeros(maxFrac - |y.fractionPart|);

    var fracSum, carry := AddColumns(fracX, fracY, 0, "", "", "");
    var fractionPart := Reverse(fracSum);
    EmptyTail(fractionPart);
    EmptyTail(fracX);
    EmptyTail(fracY);

    var intX, intY, padX, padY := PadIntegers(x.integerPart, y.integerPart);

    var intSum;
    intSum, carry := AddColumns(intX, intY, carry, fractionPart, fracX, fracY);
    ghost var columns := intSum;
    if carry != 0 {
      intSum := intSum + [DigitChar(carry)];
    }
    CarryPushed(columns, intSum, fractionPart, carry, |Reverse(columns) + fractionPart|,
                DigitsValue(intX + fracX) + DigitsValue(intY + fracY));
    var integerPart := Reverse(intSum);

    var raw := BigDouble(false, integerPart, fractionPart);
    SumAssembled(x, y, raw, maxFrac, intX, intY, padX, padY);
    res := Normalize(raw);
  }

  /** Pushing the last carry, when there is one, as a leading digit accounts for it. */
  lemma CarryPushed(columns: string, pushed: string, rest: string, carry: int, n: nat, total: int)
    requires AllDigits(Reverse(columns) + rest) && 0 <= carry <= 1 && n == |columns| + |rest|
    requires DigitsValue(Reverse(columns) + rest) + CarryValue(carry, n) == total
    requires pushed == if carry != 0 then columns + [DigitChar(carry)] else columns
    ensures AllDigits(Reverse(pushed) + rest) && DigitsValue(Reverse(pushed) + rest) == total
  {
    if carry != 0 {
      var t := Reverse(columns) + rest;
      assert |t| == n;
      ReverseAppendTo(columns, DigitChar(carry), rest);
      LeadingOne(t, DigitChar(carry));
    }
  }

  /** A leading 1 adds 10^n to an n-digit string. */
  lemma LeadingOne(t: string, c: char)
    requires AllDigits(t) && IsDigit(c) && DigitValue(c) == 1
    ensures AllDigits([c] + t)
    ensures DigitsValue([c] + t) == DigitsValue(t) + Pow10(|t|)
  {
    ValueCons(c, t);
  }

  /** The digits addAbs produced, read at the common scale k, denote the sum of the
      magnitudes of x and y. */
  lemma SumAssembled(x: BigDouble, y: BigDouble, raw: BigDouble, k: nat, intX: string, intY: string,
                     padX: nat, padY: nat)
    requires WellFormed(x) && WellFormed(y) && k >= |x.fractionPart| && k >= |y.fractionPart|
    requires |raw.fractionPart| == k
    requires intX == Zeros(padX) + x.integerPart && intY == Zeros(padY) + y.integerPart
    requires AllDigits(raw.integerPart + raw.fractionPart)
    requires AllDigits(intX + (x.fractionPart + Zeros(k - |x.fractionPart|)))
    requires AllDigits(intY + (y.fractionPart + Zeros(k - |y.fractionPart|)))
    requires DigitsValue(raw.integerPart + raw.fractionPart)
          == DigitsValue(intX + (x.fractionPart + Zeros(k - |x.fractionPart|)))
           + DigitsValue(intY + (y.fractionPart + Zeros(k - |y.fractionPart|)))
    ensures WellFormed(raw) && Magnitude(raw) == Magnitude(x) + Magnitude(y)
  {
    AllDigitsSplit(raw.integerPart, raw.fractionPart);
    assert Aligned(raw, k) == raw.integerPart + raw.fractionPart;
    Padded(x, padX, k);
    Padded(y, padY, k);
    SumAt(x, y, raw, k);
  }

  // ---------------------------------------------------------------------------
  // subAbs (main.cpp:278-340)

  /** Where the subAbs column loop stands once columns i.. are done: the digits pushed
      so far, reversed and followed by the columns acc done to the right, plus the same
      columns of ys, make those columns of xs plus the borrow still owed. */
  ghost predicate SubtractedSoFar(pushed: string, borrow: int, xs: string, ys: string, i: nat,
                                  acc: string, tx: string, ty: string)
    requires i <= |xs| && |xs| == |ys|
  {
    && AllDigits(Reverse(pushed) + acc) && AllDigits(xs[i..] + tx) && AllDigits(ys[i..] + ty)
    && 0 <= borrow <= 1
    && DigitsValue(Reverse(pushed) + acc) + DigitsValue(ys[i..] + ty)
       == DigitsValue(xs[i..] + tx) + CarryValue(borrow, |xs| - i + |acc|)
  }

  /** One pass of the subAbs loop body keeps SubtractedSoFar. */
  lemma SubStep(pushed: string, borrow: int, xs: string, ys: string, i: nat,
                acc: string, tx: string, ty: string, d: int, borrow': int)
    requires i < |xs| && |xs| == |ys| && AllDigits(xs) && AllDigits(ys)
    requires |pushed| == |xs| - 1 - i && |tx| == |acc| && |ty| == |acc|
    requires SubtractedSoFar(pushed, borrow, xs, ys, i + 1, acc, tx, ty)
    requires 0 <= d <= 9 && 0 <= borrow' <= 1
    requires d - 10 * borrow' == DigitValue(xs[i]) - borrow - DigitValue(ys[i])
    ensures SubtractedSoFar(pushed + [DigitChar(d)], borrow', xs, ys, i, acc, tx, ty)
  {
    var done := Reverse(pushed) + acc;
    SubColumn(done, borrow, xs[i + 1..] + tx, ys[i + 1..] + ty, xs[i], ys[i], d, borrow');
    ReverseAppendTo(pushed, DigitChar(d), acc);
    SliceCons(xs, i, tx);
    SliceCons(ys, i, ty);
  }

  /** The column loop subAbs runs over the fractions and then over the integer parts:
      subtracts ys from xs right to left with the borrow coming in, pushing one digit
      per column. The ghost acc, tx and ty are the columns already done, as in
      AddColumns: acc reads tx - ty plus the borrow still owed. */
  method SubColumns(xs: string, ys: string, borrowIn: int, ghost acc: string, ghost tx: string, ghost ty: string)
    returns (pushed: string, borrow: int)
    requires AllDigits(xs) && AllDigits(ys) && |xs| == |ys|
    requires AllDigits(acc) && AllDigits(tx) && AllDigits(ty) && |tx| == |acc| && |ty| == |acc|
    requires 0 <= borrowIn <= 1
    requires DigitsValue(acc) + DigitsValue(ty) == DigitsValue(tx) + CarryValue(borrowIn, |acc|)
    ensures |pushed| == |xs| && 0 <= borrow <= 1
    ensures AllDigits(Reverse(pushed) + acc) && AllDigits(xs + tx) && AllDigits(ys + ty)
    ensures DigitsValue(Reverse(pushed) + acc) + DigitsValue(ys + ty)
         == DigitsValue(xs + tx) + CarryValue(borrow, |Reverse(pushed) + acc|)
  {
    borrow := borrowIn;
    pushed := "";
    var i := |xs| - 1;
    assert xs[|xs|..] + tx == tx && ys[|ys|..] + ty == ty && Reverse(pushed) + acc == acc;
    while i >= 0
      invariant -1 <= i < |xs| && |pushed| == |xs| - 1 - i
      invariant SubtractedSoFar(pushed, borrow, xs, ys, i + 1, acc, tx, ty)
    {
      var digitX := DigitValue(xs[i]);
      var digitY := DigitValue(ys[i]);
      ghost var borrowed := borrow;
      digitX := digitX - borrow;
      borrow := 0;
      if digitX < digitY {
        digitX := digitX + 10;
        borrow := 1;
      }
      var diff := digitX - digitY;
      SubStep(pushed, borrowed, xs, ys, i, acc, tx, ty, diff, borrow);
      pushed := pushed + [DigitChar(diff)];
      i := i - 1;
    }
    SubtractedAll(pushed, borrow, xs, ys, acc, tx, ty);
  }

  /** Once every column is done, SubtractedSoFar speaks of the whole strings. */
  lemma SubtractedAll(pushed: string, borrow: int, xs: string, ys: string, acc: string, tx: string, ty: string)
    requires |xs| == |ys| && |pushed| == |xs| && SubtractedSoFar(pushed, borrow, xs, ys, 0, acc, tx, ty)
    ensures AllDigits(Reverse(pushed) + acc) && AllDigits(xs + tx) && AllDigits(ys + ty)
    ensures DigitsValue(Reverse(pushed) + acc) + DigitsValue(ys + ty)
         == DigitsValue(xs + tx) + CarryValue(borrow, |Reverse(pushed) + acc|)
  {
    assert |xs| - 0 + |acc| == |Reverse(pushed) + acc|;
    assert xs[0..] == xs && ys[0..] == ys;
  }

  /** Subtracts the smaller magnitude y from x: pads both fractions, subtracts their
      columns, takes the borrow on into the padded integer columns, strips leading
      zeros of the integer difference and normalizes. */
  method SubAbs(x: BigDouble, y: BigDouble) returns (res: BigDouble)
    requires WellFormed(x) && WellFormed(y) && Magnitude(x) >= Magnitude(y)
    ensures Normalized(res) && !res.negative
    ensures Magnitude(res) == Magnitude(x) - Magnitude(y)
  {
    var maxFrac := if |x.fractionPart| < |y.fractionPart| then |y.fractionPart| else |x.fractionPart|;
    var fracX := x.fractionPart + Zeros(maxFrac - |x.fractionPart|);
    var fracY := y.fractionPart + Zeros(maxFrac - |y.fractionPart|);

    var fracDiff, borrow := SubColumns(fracX, fracY, 0, "", "", "");
    var fractionPart := Reverse(fracDiff);
    EmptyTail(fractionPart);
    EmptyTail(fracX);
    EmptyTail(fracY);

    var intX, intY, padX, padY := PadIntegers(x.integerPart, y.integerPart);

    var intDiff;
    intDiff, borrow := SubColumns(intX, intY, borrow, fractionPart, fracX, fracY);
    var integerPart := Reverse(intDiff);
    Padded(x, padX, maxFrac);
    Padded(y, padY, maxFrac);
    NoFinalBorrow(x, y, maxFrac, integerPart + fractionPart, borrow);

    ghost var full := integerPart;
    ghost var stripped;
    integerPart, stripped := StripLeadingZeros(integerPart);

    var raw := BigDouble(false, integerPart, fractionPart);
    DifferenceAssembled(x, y, raw, maxFrac, full, stripped);
    res := Normalize(raw);
  }

  /** The digits subAbs produced, with leading zeros stripped, read at the common scale k,
      denote the difference of the magnitudes of x and y. */
  lemma DifferenceAssembled(x: BigDouble, y: BigDouble, raw: BigDouble, k: nat, full: string, stripped: nat)
    requires WellFormed(x) && WellFormed(y) && k >= |x.fractionPart| && k >= |y.fractionPart|
    requires |raw.fractionPart| == k && full == Zeros(stripped) + raw.integerPart
    requires AllDigits(full + raw.fractionPart) && AllDigits(Aligned(x, k)) && AllDigits(Aligned(y, k))
    requires DigitsValue(full + raw.fractionPart) + DigitsValue(Aligned(y, k)) == DigitsValue(Aligned(x, k))
    ensures WellFormed(raw) && Magnitude(raw) == Magnitude(x) - Magnitude(y)
  {
    var digits := raw.integerPart + raw.fractionPart;
    assert full + raw.fractionPart == Zeros(stripped) + digits;
    AllDigitsSplit(Zeros(stripped), digits);
    AllDigitsSplit(raw.integerPart, raw.fractionPart);
    LeadingZeros(stripped, digits);
    assert Aligned(raw, k) == digits;
    SumAt(raw, y, x, k);
  }

  /** When |x| >= |y| the subtraction leaves no borrow out of the leading column. */
  lemma NoFinalBorrow(x: BigDouble, y: BigDouble, k: nat, digits: string, b: int)
    requires WellFormed(x) && WellFormed(y) && Magnitude(x) >= Magnitude(y)
    requires k >= |x.fractionPart| && k >= |y.fractionPart|
    requires AllDigits(digits) && 0 <= b <= 1
    requires AllDigits(Aligned(x, k)) && AllDigits(Aligned(y, k))
    requires DigitsValue(digits) + DigitsValue(Aligned(y, k)) == DigitsValue(Aligned(x, k)) + CarryValue(b, |digits|)
    ensures b == 0
    ensures DigitsValue(digits) + DigitsValue(Aligned(y, k)) == DigitsValue(Aligned(x, k))
  {
    CompareAt(x, y, k);
    ValueBound(digits);
  }

  // ---------------------------------------------------------------------------
  // The sign logic of add (main.cpp:343-364)

  /** Same signs add the magnitudes and keep the sign; opposite signs subtract the
      smaller magnitude from the larger and take the larger one's sign; the result
      is normalized once more, which turns a negative zero into zero. */
  method Add(a: BigDouble, b: BigDouble) returns (result: BigDouble)
    requires Normalized(a) && Normalized(b)
    ensures Normalized(result)
    ensures Value(result) == Value(a) + Value(b)
  {
    ValueSign(a);
    ValueSign(b);
    if a.negative == b.negative {
      result := AddAbs(a, b);
      result := result.(negative := a.negative);
    } else {
      AbsGreaterIsMagnitudeOrder(a, b);
      if AbsGreater(a, b) {
        result := SubAbs(a, b);
        result := result.(negative := a.negative);
      } else {
        result := SubAbs(b, a);
        result := result.(negative := b.negative);
      }
    }
    ValueSign(result);
    result := Normalize(result);
  }
}
