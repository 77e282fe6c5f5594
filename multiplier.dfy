/** multiply (main.cpp:368-439): schoolbook multiplication of the digit strings with the
    point removed, then the point put back |a.fractionPart| + |b.fractionPart| places
    from the right. */
module Multiplier {
  import opened Digits
  import opened Decimal
  import opened Normalizer

  // ---------------------------------------------------------------------------
  // The digit product (main.cpp:394-407)

  /** Where the product buffer stands once rows i+1.. are added: the untouched cells up
      to index i are '0' and the buffer reads as the lower digits of a times b. */
  ghost predicate RowsSoFar(cells: string, a: string, b: string, i: int) {
    && AllDigits(a) && AllDigits(b) && -1 <= i < |a|
    && |cells| == |a| + |b| && AllDigits(cells)
    && (forall k :: 0 <= k <= i ==> cells[k] == '0')
    && DigitsValue(cells) == DigitsValue(a[i + 1..]) * DigitsValue(b)
  }

  /** Where the buffer stands in row i once columns j+1.. of b are added: the carry is
      owed to cell i+j+1, and digit a[i] times those columns has been added, shifted to
      row i. */
  ghost predicate RowSoFar(cells: string, carry: int, a: string, b: string, i: int, j: int) {
    && AllDigits(a) && AllDigits(b) && 0 <= i < |a| && -1 <= j < |b|
    && |cells| == |a| + |b| && AllDigits(cells) && 0 <= carry <= 9
    && (forall k :: 0 <= k <= i ==> cells[k] == '0')
    && DigitsValue(cells) + carry * Pow10(|cells| - 1 - (i + j + 1))
       == DigitsValue(a[i + 1..]) * DigitsValue(b)
        + DigitValue(a[i]) * (DigitsValue(b[j + 1..]) * Pow10(|a| - 1 - i))
  }

  /** The nested loops of multiply on a buffer of |a| + |b| cells, all '0' at first:
      row i adds digit a[i] times b into cells i..i+|b|, column by column from the right
      with a carry, and puts the last carry into cell i. */
  method MultiplyDigits(a: string, b: string) returns (product: string)
    requires AllDigits(a) && AllDigits(b)
    ensures |product| == |a| + |b| && AllDigits(product)
    ensures DigitsValue(product) == DigitsValue(a) * DigitsValue(b)
  {
    var res := new char[|a| + |b|](_ => '0');
    RowsStart(res[..], a, b);
    var i := |a| - 1;
    while i >= 0
      invariant -1 <= i < |a|
      invariant RowsSoFar(res[..], a, b, i)
    {
      AddRow(res, a, b, i);
      i := i - 1;
    }
    RowsDone(res[..], a, b);
    product := res[..];
  }

  /** One pass of the outer loop of multiply: digit a[i] times b added into cells
      i..i+|b| of the buffer. */
  method AddRow(res: array<char>, a: string, b: string, i: int)
    requires RowsSoFar(res[..], a, b, i) && 0 <= i
    modifies res
    ensures RowsSoFar(res[..], a, b, i - 1)
  {
    var carry: int := 0;
    var n1: int := DigitValue(a[i]);
    RowStart(res[..], a, b, i);
    var j := |b| - 1;
    while j >= 0
      invariant -1 <= j < |b|
      invariant RowSoFar(res[..], carry, a, b, i, j)
    {
      var n2: int := DigitValue(b[j]);
      var sum: int := DigitValue(res[i + j + 1]) + n1 * n2 + carry;
      ghost var cells, before := res[..], carry;
      carry := sum / 10;
      res[i + j + 1] := DigitChar(sum % 10);
      MulStep(cells, res[..], before, a, b, i, j, sum);
      j := j - 1;
    }
    ghost var cells := res[..];
    RowEnd(cells, carry, a, b, i);
    res[i] := DigitChar(DigitValue(res[i]) + carry);
    assert res[..] == cells[i := DigitChar(carry)];
  }

  /** A buffer of zeros is the empty sum. */
  lemma RowsStart(cells: string, a: string, b: string)
    requires AllDigits(a) && AllDigits(b)
    requires |cells| == |a| + |b| && forall k :: 0 <= k < |cells| ==> cells[k] == '0'
    ensures RowsSoFar(cells, a, b, |a| - 1)
  {
    assert cells == Zeros(|cells|);
    ValueOfZeros(|cells|);
    assert a[|a|..] == [];
  }

  /** A row starts with no carry and no column added. */
  lemma RowStart(cells: string, a: string, b: string, i: int)
    requires RowsSoFar(cells, a, b, i) && 0 <= i
    ensures RowSoFar(cells, 0, a, b, i, |b| - 1)
  {
    assert b[|b|..] == [];
  }

  /** One pass of the inner loop: cell i+j+1 takes the low digit of its old digit plus
      a[i] * b[j] plus the carry, and the rest is carried to cell i+j. */
  lemma MulStep(cells: string, next: string, carry: int, a: string, b: string, i: int, j: int, sum: int)
    requires RowSoFar(cells, carry, a, b, i, j) && 0 <= j
    requires sum == DigitValue(cells[i + j + 1]) + DigitValue(a[i]) * DigitValue(b[j]) + carry
    requires next == cells[i + j + 1 := DigitChar(sum % 10)]
    ensures RowSoFar(next, sum / 10, a, b, i, j - 1)
  {
    DigitProduct(DigitValue(a[i]), DigitValue(b[j]));
    ColumnAdded(cells, next, carry, a, b, i, j, sum);
  }

  /** The value part of MulStep. */
  lemma ColumnAdded(cells: string, next: string, carry: int, a: string, b: string, i: int, j: int, sum: int)
    requires AllDigits(a) && AllDigits(b) && AllDigits(cells) && 0 <= i < |a| && 0 <= j < |b|
    requires |cells| == |a| + |b|
    requires DigitsValue(cells) + carry * Pow10(|cells| - 1 - (i + j + 1))
             == DigitsValue(a[i + 1..]) * DigitsValue(b)
              + DigitValue(a[i]) * (DigitsValue(b[j + 1..]) * Pow10(|a| - 1 - i))
    requires sum == DigitValue(cells[i + j + 1]) + DigitValue(a[i]) * DigitValue(b[j]) + carry
    requires next == cells[i + j + 1 := DigitChar(sum % 10)]
    ensures AllDigits(next)
    ensures DigitsValue(next) + (sum / 10) * Pow10(|next| - 1 - (i + (j - 1) + 1))
            == DigitsValue(a[i + 1..]) * DigitsValue(b)
             + DigitValue(a[i]) * (DigitsValue(b[j - 1 + 1..]) * Pow10(|a| - 1 - i))
  {
    ValueUpdate(cells, i + j + 1, DigitChar(sum % 10));
    ColumnWeights(a, b, i, j, |cells|, |next|);
    MulArith(DigitsValue(cells), DigitsValue(next), DigitValue(cells[i + j + 1]), DigitValue(DigitChar(sum % 10)),
             sum, carry, Pow10(|cells| - 1 - (i + j + 1)), Pow10(|next| - 1 - (i + (j - 1) + 1)),
             DigitValue(a[i]), DigitValue(b[j]), DigitsValue(a[i + 1..]) * DigitsValue(b),
             DigitsValue(b[j + 1..]), DigitsValue(b[j - 1 + 1..]), Pow10(|a| - 1 - i), Pow10(|b[j + 1..]|));
  }

  /** Taking digit j into the rest of b, and the weights of column i + j + 1 and of the
      column to its left. */
  lemma ColumnWeights(a: string, b: string, i: int, j: int, n: nat, n': nat)
    requires AllDigits(b) && 0 <= i < |a| && 0 <= j < |b| && n == n' == |a| + |b|
    ensures DigitsValue(b[j - 1 + 1..]) == DigitValue(b[j]) * Pow10(|b[j + 1..]|) + DigitsValue(b[j + 1..])
    ensures Pow10(|b[j + 1..]|) * Pow10(|a| - 1 - i) == Pow10(n - 1 - (i + j + 1))
    ensures Pow10(n' - 1 - (i + (j - 1) + 1)) == 10 * Pow10(n - 1 - (i + j + 1))
  {
    assert b[j - 1 + 1..] == [b[j]] + b[j + 1..];
    ValueCons(b[j], b[j + 1..]);
    Pow10Add(|b[j + 1..]|, |a| - 1 - i);
    Pow10Same(|b[j + 1..]| + (|a| - 1 - i), n - 1 - (i + j + 1));
    Pow10Next(n' - 1 - (i + (j - 1) + 1), n - 1 - (i + j + 1));
  }

  /** The bound on one digit product, given to the inner loop as a single fact, which
      keeps its proof cheap on every solver seed. */
  lemma DigitProduct(x: int, y: int)
    requires 0 <= x <= 9 && 0 <= y <= 9
    ensures 0 <= x * y <= 81
  {
  }

  /** The identity behind MulStep, on plain integers: w is the weight of the cell, w'
      that of the cell to its left, q the weight of row i's last column and r * q == w. */
  lemma MulArith(before: int, after: int, prev: int, digit: int, sum: int, carry: int, w: int, w': int,
                 ai: int, bj: int, rows: int, rest: int, rest': int, q: int, r: int)
    requires before + carry * w == rows + ai * (rest * q)
    requires after + prev * w == before + digit * w && digit == sum % 10
    requires sum == prev + ai * bj + carry
    requires rest' == bj * r + rest && r * q == w && w' == 10 * w
    ensures after + (sum / 10) * w' == rows + ai * (rest' * q)
  {
    assert sum == 10 * (sum / 10) + digit;
    assert (sum / 10) * (10 * w) + digit * w == sum * w;
    assert sum * w == prev * w + ai * (bj * w) + carry * w;
    assert ai * (rest' * q) == ai * (bj * w) + ai * (rest * q);
  }

  /** The end of a row: cell i, still '0', takes the last carry; now rows i.. are in. */
  lemma RowEnd(cells: string, carry: int, a: string, b: string, i: int)
    requires RowSoFar(cells, carry, a, b, i, -1)
    ensures cells[i] == '0' && 0 <= DigitValue(cells[i]) + carry <= 9
    ensures RowsSoFar(cells[i := DigitChar(carry)], a, b, i - 1)
  {
    var d := DigitChar(carry);
    var e := |cells| - 1 - i;
    ValueUpdate(cells, i, d);
    assert b[0..] == b;
    assert a[i..] == [a[i]] + a[i + 1..];
    ValueCons(a[i], a[i + 1..]);
    RowArith(DigitsValue(cells), DigitsValue(cells[i := d]), carry, Pow10(e),
             DigitsValue(a[i + 1..]), DigitValue(a[i]), DigitsValue(b), Pow10(|a| - 1 - i),
             DigitsValue(a[i..]));
  }

  lemma RowArith(before: int, after: int, carry: int, w: int, rows: int, ai: int, v: int, q: int, row: int)
    requires before + carry * w == rows * v + ai * (v * q)
    requires after + 0 * w == before + carry * w
    requires row == ai * q + rows
    ensures after == row * v
  {
    assert row * v == ai * (v * q) + rows * v;
  }

  /** Once every row is in, the buffer reads a times b. */
  lemma RowsDone(cells: string, a: string, b: string)
    requires RowsSoFar(cells, a, b, -1)
    ensures AllDigits(cells) && DigitsValue(cells) == DigitsValue(a) * DigitsValue(b)
  {
    assert a[0..] == a;
  }

  // ---------------------------------------------------------------------------
  // multiply (main.cpp:368-439)

  /** Multiplies the digit strings with the point removed, strips leading zeros, puts
      the point |a.fractionPart| + |b.fractionPart| digits from the right (padding with
      zeros when the product is shorter), takes the sign as "exactly one is negative"
      and normalizes. A factor whose digits are all zeros gives 0 at once. */
  method Multiply(a: BigDouble, b: BigDouble) returns (result: BigDouble)
    requires WellFormed(a) && WellFormed(b)
    ensures Normalized(result)
    ensures Value(result) == Value(a) * Value(b)
    ensures result.negative == (a.negative != b.negative && !IsZero(result))
  {
    var totalFracDigits := |a.fractionPart| + |b.fractionPart|;
    var bigA := a.integerPart + a.fractionPart;
    var bigB := b.integerPart + b.fractionPart;
    ghost var zerosA, zerosB;
    bigA, zerosA := StripLeadingZeros(bigA);
    bigB, zerosB := StripLeadingZeros(bigB);
    FactorStripped(a, bigA, zerosA);
    FactorStripped(b, bigB, zerosB);

    if bigA == "0" || bigB == "0" || bigA == "" || bigB == "" {
      ZeroFactor(a, b, bigA, bigB);
      return Zero;
    }

    var product := MultiplyDigits(bigA, bigB);
    var res;
    ghost var stripped;
    res, stripped := StripLeadingZeros(product);

    var negative := a.negative != b.negative;
    var raw;
    ghost var lead;
    if totalFracDigits >= |res| {
      var padCount := totalFracDigits - |res|;
      raw := BigDouble(negative, "0", Zeros(padCount) + res);
      lead := padCount + 1;
      PointBeforeAll(raw, padCount, res);
    } else {
      var pointPos := |res| - totalFracDigits;
      raw := BigDouble(negative, res[..pointPos], res[pointPos..]);
      lead := 0;
      PointInside(raw, res, pointPos);
    }
    ProductAssembled(a, b, raw, bigA, bigB, product, stripped, res, lead);
    result := Normalize(raw);
  }

  /** Stripping the combined digits keeps their value. */
  lemma FactorStripped(d: BigDouble, digits: string, zeros: nat)
    requires WellFormed(d) && d.integerPart + d.fractionPart == Zeros(zeros) + digits
    ensures AllDigits(digits)
    ensures DigitsValue(digits) == DigitsValue(d.integerPart + d.fractionPart)
  {
    AllDigitsSplit(Zeros(zeros), digits);
    LeadingZeros(zeros, digits);
  }

  /** A factor with no nonzero digit makes the product 0. */
  lemma ZeroFactor(a: BigDouble, b: BigDouble, bigA: string, bigB: string)
    requires WellFormed(a) && WellFormed(b) && AllDigits(bigA) && AllDigits(bigB)
    requires DigitsValue(bigA) == DigitsValue(a.integerPart + a.fractionPart)
    requires DigitsValue(bigB) == DigitsValue(b.integerPart + b.fractionPart)
    requires bigA == "0" || bigB == "0" || bigA == "" || bigB == ""
    ensures Normalized(Zero) && Value(Zero) == Value(a) * Value(b)
  {
    assert DigitsValue("0") == 0 by { assert "0"[..0] == ""; }
    ZeroDigits(Zero);
    if bigA == "0" || bigA == "" {
      ZeroDigits(a);
    } else {
      ZeroDigits(b);
    }
  }

  /** The two placements of the point, each with the digits of the record as one
      string; lemmas of their own rather than asserts inside multiply, which keeps
      its proof cheap on every solver seed. */
  lemma PointBeforeAll(raw: BigDouble, n: nat, s: string)
    requires raw.integerPart == "0" && raw.fractionPart == Zeros(n) + s
    ensures raw.integerPart + raw.fractionPart == Zeros(n + 1) + s
  {
  }

  lemma PointInside(raw: BigDouble, s: string, p: nat)
    requires p <= |s| && raw.integerPart == s[..p] && raw.fractionPart == s[p..]
    ensures raw.integerPart + raw.fractionPart == Zeros(0) + s
  {
  }

  /** The record built around the stripped product, negative exactly when one factor
      is, denotes the product of the two values. */
  lemma ProductAssembled(a: BigDouble, b: BigDouble, raw: BigDouble, bigA: string, bigB: string,
                         product: string, stripped: nat, res: string, lead: nat)
    requires WellFormed(a) && WellFormed(b) && AllDigits(bigA) && AllDigits(bigB)
    requires DigitsValue(bigA) == DigitsValue(a.integerPart + a.fractionPart)
    requires DigitsValue(bigB) == DigitsValue(b.integerPart + b.fractionPart)
    requires AllDigits(product) && DigitsValue(product) == DigitsValue(bigA) * DigitsValue(bigB)
    requires product == Zeros(stripped) + res
    requires raw.integerPart + raw.fractionPart == Zeros(lead) + res
    requires |raw.fractionPart| == |a.fractionPart| + |b.fractionPart|
    requires raw.negative == (a.negative != b.negative)
    ensures WellFormed(raw) && Value(raw) == Value(a) * Value(b)
  {
    AllDigitsSplit(Zeros(stripped), res);
    LeadingZeros(stripped, res);
    LeadingZeros(lead, res);
    AllDigitsSplit(raw.integerPart, raw.fractionPart);
    NumeratorProduct(raw, a, b);
    ProductOf(raw, a, b);
  }

}
