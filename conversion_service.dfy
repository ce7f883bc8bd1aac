/** The conversion engine: Arabic to Roman by greedy subtraction, Roman to
    Arabic by a left-to-right scan behind the validation pattern, and the two
    validators. The two converters are methods whose loops are proved against
    the specification functions `ToRoman` and `ToArabic`; the lemmas below
    state the round trip, the canonical form, the range and the case
    insensitivity of those specifications. */
module ConversionService {
  import opened Results
  import opened RomanNumerals
  import JsNumbers

  const RangeErrorMessage := "Number must be between 1 and 3999"
  const InvalidRomanMessage := "Invalid Roman numeral"

  // ---------------------------------------------------------------------
  // Validators

  /** `value` reads as a number in (0, 3999]. */
  predicate IsValidNumber(value: string) {
    var n := JsNumbers.ToNumber(value);
    n.Some? && 0 < n.value <= 3999
  }

  /** The number a valid input reads as. */
  function NumericValue(value: string): (n: nat)
    requires IsValidNumber(value)
    ensures 1 <= n <= 3999
  {
    JsNumbers.ToNumber(value).value
  }

  /** The case-insensitive test against the validation pattern, by the
      deterministic matcher. */
  predicate IsValidRoman(value: string) {
    ParseNumeral(Upper(value)).Some?
  }

  /** The validator accepts exactly the strings whose upper-case form belongs
      to the pattern's language. */
  lemma IsValidRomanExact(value: string)
    ensures IsValidRoman(value) <==> InPatternLanguage(Upper(value))
  {
    ParseNumeralExact(Upper(value));
  }

  // ---------------------------------------------------------------------
  // Specifications of the two converters

  /** Arabic to Roman: the canonical numeral, or the range error. */
  function ToRoman(num: int): Result<string, string> {
    if num <= 0 || num > 3999 then Err(RangeErrorMessage) else Ok(Roman(num))
  }

  /** Roman to Arabic: the number the matched digit groups denote, or the
      pattern error. */
  function ToArabic(roman: string): Result<nat, string> {
    if !IsValidRoman(roman) then Err(InvalidRomanMessage)
    else Ok(ParseNumeral(Upper(roman)).value.Value())
  }

  // ---------------------------------------------------------------------
  // The converters

  /** Appends each table symbol while its value fits in what remains. */
  method ArabicToRoman(num: int) returns (r: Result<string, string>)
    ensures r.Err? <==> num <= 0 || num > 3999
    ensures r == ToRoman(num)
  {
    if num <= 0 || num > 3999 {
      return Err(RangeErrorMessage);
    }
    var result := "";
    var remaining: nat := num;
    for i := 0 to |Table|
      invariant result + Greedy(Table, remaining, i) == Greedy(Table, num, 0)
      invariant i > 0 ==> remaining < Table[i - 1].value
    {
      var value, symbol := Table[i].value, Table[i].symbol;
      while remaining >= value
        invariant result + Greedy(Table, remaining, i) == Greedy(Table, num, 0)
        invariant i > 0 ==> remaining < Table[i - 1].value
      {
        GreedyTake(Table, remaining, i);
        result := result + symbol;
        remaining := remaining - value;
      }
      GreedySkip(Table, remaining, i);
    }
    TableRows();
    assert Greedy(Table, remaining, |Table|) == "";
    assert result + "" == result;
    GreedyIsRoman(num);
    return Ok(result);
  }

  /** Rejects what the pattern does not match, then scans the upper-cased
      input: a symbol followed by a larger one adds the difference and skips
      both, any other symbol adds its own value. */
  method RomanToArabic(roman: string) returns (r: Result<nat, string>)
    ensures r.Err? <==> !IsValidRoman(roman)
    ensures r == ToArabic(roman)
  {
    if !IsValidRoman(roman) {
      return Err(InvalidRomanMessage);
    }
    var result := 0;
    var upperRoman := Upper(roman);
    var i := 0;
    while i < |upperRoman|
      invariant 0 <= i <= |upperRoman|
      invariant result + ScanValue(upperRoman[i..]) == ScanValue(upperRoman)
    {
      var current := SymbolValue(upperRoman[i]);
      var next := if i + 1 < |upperRoman| then SymbolValue(upperRoman[i + 1]) else 0;
      ScanStep(upperRoman, i);
      if next != 0 && current < next {
        result := result + next - current;
        i := i + 2;
      } else {
        result := result + current;
        i := i + 1;
      }
    }
    assert upperRoman[i..] == [];
    ValueIsScan(roman);
    return Ok(result);
  }

  // ---------------------------------------------------------------------
  // Properties

  /** For accepted input, the value of the matched digit groups is what the
      left-to-right scan of the upper-cased input computes. */
  lemma ValueIsScan(roman: string)
    requires IsValidRoman(roman)
    ensures ToArabic(roman) == Ok(ScanValue(Upper(roman)))
  {
    ScanNumeral(ParseNumeral(Upper(roman)).value);
  }

  /** Every number in range converts to a numeral that passes the validator
      and converts back to the same number. */
  lemma RoundTrip(n: int)
    requires 1 <= n <= 3999
    ensures ToRoman(n).Ok?
    ensures IsValidRoman(ToRoman(n).value)
    ensures ToArabic(ToRoman(n).value) == Ok(n)
  {
    var dg := DigitsOf(n);
    ScanNumeral(dg);
    UpperOfSymbols(Roman(n));
    ParseNumeralComplete(dg);
  }

  /** Every numeral the validator accepts, other than the empty string, is
      the canonical numeral of the number it converts to. */
  lemma CanonicalForm(roman: string)
    requires IsValidRoman(roman) && roman != []
    ensures ToArabic(roman).Ok? && ToRoman(ToArabic(roman).value) == Ok(Upper(roman))
  {
    var dg := ParseNumeral(Upper(roman)).value;
    var n := dg.Value();
    ArabicRange(roman);
    DigitsUnique(dg, DigitsOf(n));
  }

  /** Accepted numerals convert to a number in [0, 3999], and to 0 only when
      the input is empty. */
  lemma ArabicRange(roman: string)
    requires IsValidRoman(roman)
    ensures ToArabic(roman).Ok?
    ensures ToArabic(roman).value <= 3999
    ensures ToArabic(roman).value == 0 <==> roman == []
  {
    var dg := ParseNumeral(Upper(roman)).value;
    EmptyNumeral(dg);
    assert |Upper(roman)| == |roman|;
  }

  /** Case does not matter to the validator or to the converter. */
  lemma CaseInsensitive(roman: string)
    ensures IsValidRoman(Upper(roman)) == IsValidRoman(roman)
    ensures ToArabic(Upper(roman)) == ToArabic(roman)
  {
    UpperIdempotent(roman);
  }

  /** The decimal text of a count passes the number validator exactly when
      the count is in range. */
  lemma DecimalIsValidNumber(n: nat)
    ensures IsValidNumber(JsNumbers.FromNumber(n)) <==> 1 <= n <= 3999
  {
    JsNumbers.NumberOfDecimal(n);
  }

  // ---------------------------------------------------------------------
  // Examples

  /** The pattern rejects four ones in a row. */
  lemma RejectsFourOnes()
    ensures ToArabic("IIII") == Err(InvalidRomanMessage)
  {
    assert Upper("IIII") == "IIII";
    assert ParseGroup("IIII", 'C', 'D', 'M') == (0, "IIII");
    assert ParseGroup("IIII", 'X', 'L', 'C') == (0, "IIII");
    assert LeadingRun("IIII", 'I', 3) == 3;
    assert ParseGroup("IIII", 'I', 'V', 'X') == (3, "I");
    assert ParseNumeral("IIII") == None;
  }

  /** The pattern rejects a repeated five. */
  lemma RejectsRepeatedFive()
    ensures ToArabic("VV") == Err(InvalidRomanMessage)
  {
    assert Upper("VV") == "VV";
    assert ParseGroup("VV", 'C', 'D', 'M') == (0, "VV");
    assert ParseGroup("VV", 'X', 'L', 'C') == (0, "VV");
    assert ParseGroup("VV", 'I', 'V', 'X') == (5, "V");
    assert ParseNumeral("VV") == None;
  }

  /** The pattern rejects a subtraction across two ranks. */
  lemma RejectsWideSubtraction()
    ensures ToArabic("IC") == Err(InvalidRomanMessage)
  {
    assert Upper("IC") == "IC";
    assert ParseGroup("IC", 'C', 'D', 'M') == (0, "IC");
    assert ParseGroup("IC", 'X', 'L', 'C') == (0, "IC");
    assert LeadingRun("IC", 'I', 3) == 1;
    assert ParseGroup("IC", 'I', 'V', 'X') == (1, "C");
    assert ParseNumeral("IC") == None;
  }

  /** The pattern rejects a fourth thousand. */
  lemma RejectsFourThousands()
    ensures ToArabic("MMMM") == Err(InvalidRomanMessage)
  {
    assert Upper("MMMM") == "MMMM";
    assert LeadingRun("MMMM", 'M', 3) == 3;
    assert ParseGroup("M", 'C', 'D', 'M') == (0, "M");
    assert ParseGroup("M", 'X', 'L', 'C') == (0, "M");
    assert ParseGroup("M", 'I', 'V', 'X') == (0, "M");
    assert ParseNumeral("MMMM") == None;
  }

  /** The pattern rejects letters that are not Roman symbols. */
  lemma RejectsForeignLetters()
    ensures ToArabic("XYZ") == Err(InvalidRomanMessage)
  {
    assert Upper("XYZ") == "XYZ";
    assert ParseGroup("XYZ", 'C', 'D', 'M') == (0, "XYZ");
    assert ParseGroup("XYZ", 'X', 'L', 'C') == (1, "YZ");
    assert ParseGroup("YZ", 'I', 'V', 'X') == (0, "YZ");
    assert ParseNumeral("XYZ") == None;
  }

  /** The largest number converts to its numeral and the range ends are
      refused. */
  lemma LargestNumber()
    ensures ToRoman(0) == Err(RangeErrorMessage) && ToRoman(4000) == Err(RangeErrorMessage)
    ensures ToRoman(3999) == Ok("MMMCMXCIX")
  {
    var dg := Digits(3, 9, 9, 9);
    assert DigitsOf(3999) == dg;
    assert Repeat('M', 3) == "MMM";
    assert Numeral(dg) == "MMMCMXCIX";
  }

  /** A lower-case numeral converts, and the empty string converts to 0. */
  lemma LowerCaseAndEmpty()
    ensures ToArabic("mcmxcix") == Ok(1999)
    ensures ToArabic("") == Ok(0)
  {
    var dg := Digits(1, 9, 9, 9);
    assert Repeat('M', 1) == "M";
    assert Numeral(dg) == "MCMXCIX";
    assert Upper("mcmxcix") == "MCMXCIX";
    ParseNumeralComplete(dg);
    assert Upper("") == "";
    ParseNumeralComplete(Digits(0, 0, 0, 0));
  }
}
