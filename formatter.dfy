/** bigDoubleToString (main.cpp:144-161), and the format/parse round trip. */
module Formatter {
  import opened Digits
  import opened Decimal
  import opened Validator
  import opened Parser

  /** Zero prints as "0"; otherwise a '-' when negative, the integer digits and, when
      there is a fraction, '.' and the fraction digits. */
  function BigDoubleToString(bd: BigDouble): (out: string)
  {
    if bd.integerPart == "0" && bd.fractionPart == [] then
      "0"
    else
      var sign := if bd.negative && !(bd.integerPart == "0" && bd.fractionPart == []) then "-" else "";
      var out := sign + bd.integerPart;
      if bd.fractionPart != [] then out + "." + bd.fractionPart else out
  }

  /** The text printed for a canonical record is accepted by isValidDouble and is
      written with exactly that record's sign, integer digits and fraction digits. */
  lemma FormatIsLiteral(d: BigDouble)
    requires Normalized(d)
    ensures IsDecimalText(BigDoubleToString(d))
    ensures Literal(BigDoubleToString(d)) == d
    ensures TextValue(BigDoubleToString(d)) == Value(d)
  {
    var out := BigDoubleToString(d);
    if IsZero(d) {
      GrammarWithoutPoint(out, 1);
      assert out[0..1] == d.integerPart;
    } else {
      var s := if d.negative then 1 else 0;
      var q := s + |d.integerPart|;
      assert SignLength(out) == s;
      assert out[s..q] == d.integerPart;
      assert DigitsBetween(out, s, q);
      if d.fractionPart == [] {
        assert q == |out|;
        GrammarWithoutPoint(out, q);
      } else {
        assert out[q] == '.' && out[q + 1..] == d.fractionPart;
        GrammarWithPoint(out, q, |out|);
      }
    }
  }

  /** Parsing the printed text of a canonical record gives back that record. */
  method FormatThenParse(d: BigDouble) returns (back: BigDouble)
    requires Normalized(d)
    ensures back == d
  {
    var text := BigDoubleToString(d);
    FormatIsLiteral(d);
    back := ParseStringToBigDouble(text);
    CanonicalUnique(back, d);
  }

  /** Printing the parse of a valid text gives a valid text for the same number, and
      that text is the canonical printing of the record it denotes. */
  method ParseThenFormat(s: string) returns (text: string)
    requires IsDecimalText(s)
    ensures IsDecimalText(text) && TextValue(text) == TextValue(s)
    ensures Normalized(Literal(text)) && text == BigDoubleToString(Literal(text))
  {
    var d := ParseStringToBigDouble(s);
    text := BigDoubleToString(d);
    FormatIsLiteral(d);
  }
}
