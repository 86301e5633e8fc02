/** EnumExtensions.IsFlagSet: a bit-subset test on enumeration values narrowed to 16 bits. */
module EnumExtensions {
  import opened Wrappers

  datatype FlagError =
    | Overflow      // Convert.ToUInt16 rejects a value outside 0..65535 (OverflowException)
    | ZeroFlag      // a flag value of 0 is refused (ArgumentOutOfRangeException)

  predicate IsUInt16(v: int) {
    0 <= v < 0x1_0000
  }

  /** Convert.ToUInt16 on an enumeration's underlying value. */
  function ToUInt16(v: int): (r: Result<bv16, FlagError>)
    ensures r.Success? <==> IsUInt16(v)
  {
    if IsUInt16(v) then Success(v as bv16) else Failure(Overflow)
  }

  /** A value with exactly one bit set. */
  predicate IsSingleBit(m: bv16) {
    m != 0 && m & (m - 1) == 0
  }

  /** The narrowing test at the heart of IsFlagSet. */
  predicate HasFlag(inputValues: bv16, flagValues: bv16) {
    inputValues & flagValues == flagValues
  }

  /**
   * IsFlagSet(inputEnum, flagVal) on the underlying integer values: both are converted to
   * UInt16 (input first), a zero flag is refused, and the answer is (input & flag) == flag.
   */
  function IsFlagSet(inputEnum: int, flagVal: int): (r: Result<bool, FlagError>)
    ensures r == Failure(Overflow) <==> !IsUInt16(inputEnum) || !IsUInt16(flagVal)
    ensures r == Failure(ZeroFlag) <==> IsUInt16(inputEnum) && flagVal == 0
    ensures r.Success? ==> r.value == HasFlag(inputEnum as bv16, flagVal as bv16)
  {
    match ToUInt16(inputEnum)
    case Failure(e) => Failure(e)
    case Success(inputValues) =>
      match ToUInt16(flagVal)
      case Failure(e) => Failure(e)
      case Success(flagValues) =>
        if flagValues == 0 then Failure(ZeroFlag)
        else Success(HasFlag(inputValues, flagValues))
  }

  /** The masking test holds exactly when every single bit of the flag is also set in the input. */
  lemma HasFlagMeansEveryBit(x: bv16, f: bv16)
    ensures HasFlag(x, f) <==> (forall m: bv16 :: IsSingleBit(m) && f & m != 0 ==> x & m != 0)
  {
    if HasFlag(x, f) {
      forall m: bv16 | IsSingleBit(m) && f & m != 0
        ensures x & m != 0
      {
        MaskedBitKept(x, f, m);
      }
    } else {
      var m := LowestMissingBit(x, f);
    }
  }

  lemma MaskedBitKept(x: bv16, f: bv16, m: bv16)
    requires HasFlag(x, f) && f & m != 0
    ensures x & m != 0
  {
  }

  /** The lowest bit that the flag has and the input lacks. */
  lemma LowestMissingBit(x: bv16, f: bv16) returns (m: bv16)
    requires !HasFlag(x, f)
    ensures IsSingleBit(m) && f & m != 0 && x & m == 0
  {
    var missing := f & !x;
    m := missing & -missing;
  }

  /** Every value has its own flags set; IsFlagSet(x, x) is true for every non-zero x. */
  lemma FlagSetInItself(x: bv16)
    ensures HasFlag(x, x)
  {
  }

  /** Setting more bits in the input never unsets a flag: HasFlag(x, f) implies HasFlag(x | y, f). */
  lemma FlagSetInUnion(x: bv16, y: bv16, f: bv16)
    requires HasFlag(x, f)
    ensures HasFlag(x | y, f)
  {
  }

  /** The source's test enumeration: FlagTwo = 2 and FlagThree = 4 are set in 6, FlagOne and FlagFour are not. */
  lemma FlagEnumTestCases()
    ensures IsFlagSet(6, 2) == Success(true) && IsFlagSet(6, 4) == Success(true)
    ensures IsFlagSet(6, 6) == Success(true)
    ensures IsFlagSet(6, 1) == Success(false) && IsFlagSet(6, 8) == Success(false)
    ensures IsFlagSet(6, 0) == Failure(ZeroFlag)
    ensures IsFlagSet(6, 0x1_0000) == Failure(Overflow)
  {
  }
}
