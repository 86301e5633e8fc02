/** IntegerExtensions.ParseFromString: a decimal digit parser with unchecked 32-bit accumulation. */
module IntegerExtensions {
  import Int32

  /** The characters the parser accepts as digits (ASCII '0'..'9'). */
  predicate IsDigit(c: char) {
    '0' <= c <= '9'
  }

  predicate AllDigits(s: string) {
    forall i :: 0 <= i < |s| ==> IsDigit(s[i])
  }

  function DigitValue(c: char): (d: nat)
    requires IsDigit(c)
    ensures d <= 9
  {
    (c as int) - ('0' as int)
  }

  /** The mathematical decimal value of a digit string, by Horner's rule from the left. */
  function DecimalValue(s: string): (v: nat)
    requires AllDigits(s)
  {
    if |s| == 0 then 0 else DecimalValue(s[..|s| - 1]) * 10 + DigitValue(s[|s| - 1])
  }

  /**
   * ParseFromString(ref intVal, strVal): a string with any non-digit gives false and
   * intVal 0; otherwise true and the digits accumulated with unchecked `int` arithmetic.
   */
  method ParseFromString(strVal: string) returns (success: bool, intVal: int)
    ensures success <==> AllDigits(strVal)
    ensures !success ==> intVal == 0
    ensures success ==> intVal == Int32.Wrap(DecimalValue(strVal))
  {
    if !AllDigits(strVal) {
      return false, 0;
    }
    var y := 0;
    var i := 0;
    while i < |strVal|
      invariant 0 <= i <= |strVal|
      invariant y == Int32.Wrap(DecimalValue(strVal[..i]))
    {
      assert strVal[..i + 1][..i] == strVal[..i];
      Int32.WrapMulAdd(DecimalValue(strVal[..i]), 10, DigitValue(strVal[i]));
      y := Int32.Wrap(y * 10 + DigitValue(strVal[i]));
      i := i + 1;
    }
    assert strVal[..i] == strVal;
    return true, y;
  }

  /** Leading zeros do not change the value ("007" is 7). */
  lemma {:induction false} LeadingZeroIgnored(s: string)
    requires AllDigits(s)
    ensures AllDigits("0" + s) && DecimalValue("0" + s) == DecimalValue(s)
    decreases |s|
  {
    if |s| > 0 {
      var p := s[..|s| - 1];
      assert ("0" + s)[..|s|] == "0" + p;
      LeadingZeroIgnored(p);
    }
  }

  /** Below 2^31 the unchecked accumulation is exact. */
  lemma SmallValueExact(s: string)
    requires AllDigits(s) && DecimalValue(s) <= Int32.MaxValue
    ensures Int32.Wrap(DecimalValue(s)) == DecimalValue(s)
  {
  }

  /** "2147483648" (2^31) wraps to int.MinValue. */
  lemma OverflowWraps()
    ensures AllDigits("2147483648") && Int32.Wrap(DecimalValue("2147483648")) == Int32.MinValue
  {
    var s := "2147483648";
    assert s[0] == '2' && s[1] == '1' && s[2] == '4' && s[3] == '7' && s[4] == '4';
    assert s[5] == '8' && s[6] == '3' && s[7] == '6' && s[8] == '4' && s[9] == '8';
    TwoToThe31(s);
  }

  /** Any ten-character string spelling 2147483648 has that value. */
  lemma TwoToThe31(s: string)
    requires |s| == 10 && s[0] == '2' && s[1] == '1' && s[2] == '4' && s[3] == '7' && s[4] == '4'
    requires s[5] == '8' && s[6] == '3' && s[7] == '6' && s[8] == '4' && s[9] == '8'
    ensures AllDigits(s) && DecimalValue(s) == 2147483648
  {
    FirstFive(s);
    PrefixStep(s, 5);
    PrefixStep(s, 6);
    PrefixStep(s, 7);
    PrefixStep(s, 8);
    PrefixStep(s, 9);
    assert s[..10] == s;
  }

  /** The first five characters of such a string spell 21474. */
  lemma FirstFive(s: string)
    requires |s| >= 5 && s[0] == '2' && s[1] == '1' && s[2] == '4' && s[3] == '7' && s[4] == '4'
    ensures AllDigits(s[..5]) && DecimalValue(s[..5]) == 21474
  {
    assert AllDigits(s[..0]);
    PrefixStep(s, 0);
    PrefixStep(s, 1);
    PrefixStep(s, 2);
    PrefixStep(s, 3);
    PrefixStep(s, 4);
  }

  /** Extending a digit prefix by the next digit multiplies its value by ten and adds the digit. */
  lemma PrefixStep(s: string, k: nat)
    requires k < |s| && AllDigits(s[..k]) && IsDigit(s[k])
    ensures AllDigits(s[..k + 1]) && DecimalValue(s[..k + 1]) == DecimalValue(s[..k]) * 10 + DigitValue(s[k])
  {
    assert s[..k + 1][..k] == s[..k];
  }

  /**
   * The source's tests: "1", "43" and "204" parse to positive values, "NotAnInteger" is refused.
   * The empty string has no non-digit, so it parses to 0.
   */
  lemma ParsesTestValues()
    ensures AllDigits("1") && DecimalValue("1") == 1
    ensures AllDigits("43") && DecimalValue("43") == 43
    ensures AllDigits("204") && DecimalValue("204") == 204
    ensures !AllDigits("NotAnInteger")
    ensures AllDigits("") && DecimalValue("") == 0
  {
    assert "1"[..0] == "";
    assert "43"[..1] == "4";
    assert "204"[..2] == "20" && "20"[..1] == "2";
    assert !IsDigit("NotAnInteger"[0]);
  }
}
