/** The per-line flow of main (main.cpp:36-61) without the file and console I/O: each
    line that isValidDouble accepts is added to -123.456 and multiplied by 123.456, and
    both results are printed; any other line is reported as invalid. */
module Driver {
  import opened Digits
  import opened Decimal
  import opened Validator
  import opened Parser
  import opened Adder
  import opened Multiplier
  import opened Formatter

  /** What main prints for one line: the two result texts, or that it is invalid. */
  datatype LineOutput = Invalid | Results(sum: string, product: string)

  const AddConstant := "-123.456"
  const MultiplyConstant := "123.456"

  /** The two constants main parses and the numbers they denote. */
  lemma Constants()
    ensures IsDecimalText(AddConstant) && TextValue(AddConstant) == -123.456
    ensures IsDecimalText(MultiplyConstant) && TextValue(MultiplyConstant) == 123.456
  {
    ConstantLiterals();
    ConstantMagnitude();
  }

  lemma ConstantLiterals()
    ensures IsDecimalText(AddConstant) && Literal(AddConstant) == BigDouble(true, "123", "456")
    ensures IsDecimalText(MultiplyConstant) && Literal(MultiplyConstant) == BigDouble(false, "123", "456")
  {
    GrammarWithPoint(AddConstant, 4, 8);
    GrammarWithPoint(MultiplyConstant, 3, 7);
  }

  lemma ConstantMagnitude()
    ensures Magnitude(BigDouble(false, "123", "456")) == 123.456
    ensures Magnitude(BigDouble(true, "123", "456")) == 123.456
  {
    assert "123" + "456" == "123456";
    ConstantDigits();
    assert Pow10(3) == 1000;
  }

  lemma ConstantDigits()
    ensures DigitsValue("123456") == 123456
  {
    assert "123456"[..5] == "12345" && "12345"[..4] == "1234" && "1234"[..3] == "123";
    assert "123"[..2] == "12" && "12"[..1] == "1" && "1"[..0] == "";
  }

  /** What main prints for a line is right: "invalid" exactly when isValidDouble rejects
      it; otherwise the line denotes number, and the two printed texts are valid, denote
      number plus addend and number times factor, and are each the canonical printing of
      the record they denote. */
  ghost predicate Reports(line: string, out: LineOutput, number: real, addend: real, factor: real) {
    match out
    case Invalid => !IsDecimalText(line)
    case Results(sum, product) =>
      && IsDecimalText(line) && TextValue(line) == number
      && IsDecimalText(sum) && TextValue(sum) == number + addend
      && Normalized(Literal(sum)) && sum == BigDoubleToString(Literal(sum))
      && IsDecimalText(product) && TextValue(product) == number * factor
      && Normalized(Literal(product)) && product == BigDoubleToString(Literal(product))
  }

  /** The two constants main parses before its loop (main.cpp:35-36). */
  method ParseConstants() returns (addConst: BigDouble, multConst: BigDouble)
    ensures Normalized(addConst) && Value(addConst) == -123.456
    ensures Normalized(multConst) && Value(multConst) == 123.456
  {
    Constants();
    addConst := ParseStringToBigDouble(AddConstant);
    multConst := ParseStringToBigDouble(MultiplyConstant);
  }

  /** One pass of main's loop. */
  method ProcessLine(line: string, addConst: BigDouble, multConst: BigDouble) returns (out: LineOutput, ghost number: real)
    requires Normalized(addConst) && Normalized(multConst)
    ensures out.Invalid? <==> !IsDecimalText(line)
    ensures Reports(line, out, number, Value(addConst), Value(multConst))
  {
    var valid := IsValidDouble(line);
    if !valid {
      return Invalid, 0.0;
    }
    var parsed := ParseStringToBigDouble(line);
    var sumResult := Add(parsed, addConst);
    var multResult := Multiply(parsed, multConst);
    var sum, product := BigDoubleToString(sumResult), BigDoubleToString(multResult);
    FormatIsLiteral(sumResult);
    FormatIsLiteral(multResult);
    Printed(line, parsed, addConst, multConst, sumResult, multResult, sum, product);
    out, number := Results(sum, product), Value(parsed);
  }

  /** The texts printed for the sum and the product report them. */
  lemma Printed(line: string, parsed: BigDouble, addConst: BigDouble, multConst: BigDouble,
                sumResult: BigDouble, multResult: BigDouble, sum: string, product: string)
    requires IsDecimalText(line) && WellFormed(parsed) && Value(parsed) == TextValue(line)
    requires WellFormed(addConst) && WellFormed(multConst)
    requires WellFormed(sumResult) && Value(sumResult) == Value(parsed) + Value(addConst)
    requires WellFormed(multResult) && Value(multResult) == Value(parsed) * Value(multConst)
    requires IsDecimalText(sum) && TextValue(sum) == Value(sumResult)
    requires Normalized(sumResult) && Literal(sum) == sumResult && sum == BigDoubleToString(sumResult)
    requires IsDecimalText(product) && TextValue(product) == Value(multResult)
    requires Normalized(multResult) && Literal(product) == multResult && product == BigDoubleToString(multResult)
    ensures Reports(line, Results(sum, product), Value(parsed), Value(addConst), Value(multConst))
  {
  }

  /** The loop of main over the lines of the input file, with the parsed constants. */
  method ProcessLines(lines: seq<string>, addConst: BigDouble, multConst: BigDouble)
      returns (outputs: seq<LineOutput>, ghost numbers: seq<real>)
    requires Normalized(addConst) && Normalized(multConst)
    ensures |outputs| == |lines| && |numbers| == |lines|
    ensures forall k :: 0 <= k < |lines| ==>
              Reports(lines[k], outputs[k], numbers[k], Value(addConst), Value(multConst))
  {
    outputs, numbers := [], [];
    var k := 0;
    while k < |lines|
      invariant 0 <= k <= |lines| && |outputs| == k && |numbers| == k
      invariant forall m :: 0 <= m < k ==> Reports(lines[m], outputs[m], numbers[m], Value(addConst), Value(multConst))
    {
      var out;
      ghost var number;
      out, number := ProcessLine(lines[k], addConst, multConst);
      AppendReport(lines, outputs, numbers, out, number, k, Value(addConst), Value(multConst));
      outputs, numbers := outputs + [out], numbers + [number];
      k := k + 1;
    }
  }

  lemma AppendReport(lines: seq<string>, outputs: seq<LineOutput>, numbers: seq<real>, out: LineOutput,
                     number: real, k: nat, addend: real, factor: real)
    requires k < |lines| && |outputs| == k && |numbers| == k
    requires forall m :: 0 <= m < k ==> Reports(lines[m], outputs[m], numbers[m], addend, factor)
    requires Reports(lines[k], out, number, addend, factor)
    ensures forall m :: 0 <= m < k + 1 ==>
              Reports(lines[m], (outputs + [out])[m], (numbers + [number])[m], addend, factor)
  {
    forall m | 0 <= m < k + 1
      ensures Reports(lines[m], (outputs + [out])[m], (numbers + [number])[m], addend, factor)
    {
      if m < k {
        assert (outputs + [out])[m] == outputs[m] && (numbers + [number])[m] == numbers[m];
      }
    }
  }
}
