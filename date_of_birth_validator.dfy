/**
 * `AdvancedDateOfBirthValidator`: a date of birth is valid when the string is
 * non-empty, exactly ten characters long, reads as a `dd/MM/yyyy` date, is not
 * later than today, and the whole years since it lie in the configured range
 * (both ends inclusive).
 *
 * The clock is the parameter `today`, the UTC calendar date of `Date()`:
 * a parsed date is UTC midnight, so it is later than the current instant
 * exactly when it is later than today's date.
 */
module DateOfBirthValidation {
  import opened Wrappers
  import opened Text
  import opened Calendar
  import opened DateOfBirthParameters

  /** The `dd/MM/yyyy` form with four-digit years, as `DateFormatter` reads it with the POSIX locale. */
  function ParseDate(s: string): (r: Option<Date>)
    ensures r.Some? ==> |s| == 10 && IsValidDate(r.value) && 1 <= r.value.year <= 9999
  {
    if |s| == 10 && s[2] == '/' && s[5] == '/' && AllDigits(s[..2]) && AllDigits(s[3..5]) && AllDigits(s[6..]) then
      var d := Date(DecimalValue(s[6..]), DecimalValue(s[3..5]), DecimalValue(s[..2]));
      if d.year >= 1 && IsValidDate(d) then Some(d) else None
    else
      None
  }

  /** A date written as `dd/MM/yyyy`. */
  function FormatDate(d: Date): (s: string)
    requires IsValidDate(d) && 1 <= d.year <= 9999
    ensures |s| == 10 && s[2] == '/' && s[5] == '/'
  {
    ZeroPadded(d.day, 2) + "/" + ZeroPadded(d.month, 2) + "/" + ZeroPadded(d.year, 4)
  }

  /** Every date the parser can return reads back from its own formatting. */
  lemma ParseFormat(d: Date)
    requires IsValidDate(d) && 1 <= d.year <= 9999
    ensures ParseDate(FormatDate(d)) == Some(d)
  {
    var s := FormatDate(d);
    assert s[..2] == ZeroPadded(d.day, 2);
    assert s[3..5] == ZeroPadded(d.month, 2);
    assert s[6..] == ZeroPadded(d.year, 4);
    DecimalValueOfZeroPadded(d.day, 2);
    DecimalValueOfZeroPadded(d.month, 2);
    DecimalValueOfZeroPadded(d.year, 4);
  }

  /** Every string the parser accepts is the formatting of the date it returns. */
  lemma FormatParse(s: string)
    requires ParseDate(s).Some?
    ensures FormatDate(ParseDate(s).value) == s
  {
    ZeroPaddedOfDecimalValue(s[..2]);
    ZeroPaddedOfDecimalValue(s[3..5]);
    ZeroPaddedOfDecimalValue(s[6..]);
    assert s == s[..2] + "/" + s[3..5] + "/" + s[6..];
  }

  datatype AdvancedDateOfBirthValidator = AdvancedDateOfBirthValidator(parameters: DateOfBirthValidatorParameters := DateOfBirthValidatorParameters()) {

    predicate IsAmountOfCharactersValid(value: string) {
      |value| == 10
    }

    /** `date > Date()`. */
    predicate IsInFuture(date: Date, today: Date) {
      Before(today, date)
    }

    /** The whole years from the date of birth to today, against both bounds. */
    predicate ValidateAge(dateOfBirth: Date, today: Date) {
      var age := YearsBetween(dateOfBirth, today);
      parameters.minAge <= age <= parameters.maxAge
    }

    predicate IsDateValid(value: string, today: Date) {
      match ParseDate(value)
      case None => false
      case Some(dateOfBirth) => !IsInFuture(dateOfBirth, today) && ValidateAge(dateOfBirth, today)
    }

    /** The guards of `isValid`, in their order. */
    predicate IsValid(value: string, today: Date) {
      value != [] && IsAmountOfCharactersValid(value) && IsDateValid(value, today)
    }
  }

  lemma EmptyRejected(v: AdvancedDateOfBirthValidator, today: Date)
    ensures !v.IsValid("", today)
  {
  }

  /** Any length other than ten rejects, whatever the content. */
  lemma WrongLengthRejected(v: AdvancedDateOfBirthValidator, value: string, today: Date)
    requires |value| != 10
    ensures !v.IsValid(value, today)
  {
  }

  /** A string that does not read as a date rejects. */
  lemma UnparsableRejected(v: AdvancedDateOfBirthValidator, value: string, today: Date)
    requires ParseDate(value).None?
    ensures !v.IsValid(value, today)
  {
  }

  /** A date later than today rejects, whatever the age bounds. */
  lemma FutureRejected(v: AdvancedDateOfBirthValidator, value: string, today: Date)
    requires ParseDate(value).Some? && Before(today, ParseDate(value).value)
    ensures !v.IsValid(value, today)
  {
  }

  lemma AgeOutsideRangeRejected(v: AdvancedDateOfBirthValidator, value: string, today: Date)
    requires ParseDate(value).Some?
    requires var age := YearsBetween(ParseDate(value).value, today);
      age < v.parameters.minAge || age > v.parameters.maxAge
    ensures !v.IsValid(value, today)
  {
  }

  lemma EmptyRangeRejectsAll(v: AdvancedDateOfBirthValidator, value: string, today: Date)
    requires v.parameters.minAge > v.parameters.maxAge
    ensures !v.IsValid(value, today)
  {
  }

  /**
   * The accepted strings are exactly the written dates of birth not after
   * today whose `minAge`-th anniversary has come and whose `(maxAge + 1)`-th has not.
   */
  lemma AcceptsFormattedDate(v: AdvancedDateOfBirthValidator, d: Date, today: Date)
    requires IsValidDate(d) && 1 <= d.year <= 9999
    ensures v.IsValid(FormatDate(d), today) <==>
      && !Before(today, d)
      && !Before(today, Anniversary(d, v.parameters.minAge))
      && Before(today, Anniversary(d, v.parameters.maxAge + 1))
  {
    ParseFormat(d);
    AtLeastYears(d, today, v.parameters.minAge);
    AtLeastYears(d, today, v.parameters.maxAge + 1);
  }

  /** Every accepted string is a written date. */
  lemma AcceptedIsFormatted(v: AdvancedDateOfBirthValidator, value: string, today: Date)
    requires v.IsValid(value, today)
    ensures ParseDate(value).Some? && FormatDate(ParseDate(value).value) == value
  {
    FormatParse(value);
  }

  /** The parser digit by digit: day, month and year from the characters around the two slashes. */
  lemma ParseDigits(s: string)
    requires |s| == 10 && s[2] == '/' && s[5] == '/'
    requires forall k | 0 <= k < 10 && k != 2 && k != 5 :: IsAsciiDigit(s[k])
    ensures var d := Date(
        1000 * DigitValue(s[6]) + 100 * DigitValue(s[7]) + 10 * DigitValue(s[8]) + DigitValue(s[9]),
        10 * DigitValue(s[3]) + DigitValue(s[4]),
        10 * DigitValue(s[0]) + DigitValue(s[1]));
      ParseDate(s) == if d.year >= 1 && IsValidDate(d) then Some(d) else None
  {
    SmallDecimalValue(s[..2]);
    SmallDecimalValue(s[3..5]);
    SmallDecimalValue(s[6..]);
  }

  /** With the default bounds, on 14 October 2026, a birthday exactly 18 years ago is accepted: the lower bound is inclusive. */
  lemma EighteenthBirthdayAccepted()
    ensures AdvancedDateOfBirthValidator().IsValid("14/10/2008", Date(2026, 10, 14))
  {
    ParseDigits("14/10/2008");
  }

  /** On the same day, a birthday one day later is rejected: that person is still 17. */
  lemma DayBeforeEighteenthRejected()
    ensures !AdvancedDateOfBirthValidator().IsValid("15/10/2008", Date(2026, 10, 14))
  {
    ParseDigits("15/10/2008");
  }

  /** February 31st does not parse, so `"31/02/2000"` is rejected at the parsing step. */
  lemma ImpossibleDateRejected(v: AdvancedDateOfBirthValidator, today: Date)
    ensures ParseDate("31/02/2000").None?
    ensures !v.IsValid("31/02/2000", today)
  {
    ParseDigits("31/02/2000");
  }

  /** February 29th parses in a leap year. */
  lemma LeapDayAccepted()
    ensures ParseDate("29/02/2000").Some?
  {
    ParseDigits("29/02/2000");
  }

  /** February 29th does not parse in 1900, which is divisible by 100 but not by 400. */
  lemma CenturyLeapDayRejected()
    ensures ParseDate("29/02/1900").None?
  {
    ParseDigits("29/02/1900");
  }

  /** Born on 29 February 2008: on 28 February 2026, a common year, the eighteenth birthday has come. */
  lemma LeapDayBirthdayAccepted()
    ensures AdvancedDateOfBirthValidator().IsValid("29/02/2008", Date(2026, 2, 28))
  {
    ParseDigits("29/02/2008");
  }

  /** The day before, that person is still 17. */
  lemma LeapDayBirthdayRejected()
    ensures !AdvancedDateOfBirthValidator().IsValid("29/02/2008", Date(2026, 2, 27))
  {
    ParseDigits("29/02/2008");
  }
}
