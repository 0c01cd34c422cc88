/**
 * `AdvancedPhoneValidator`: a phone number is valid when it is non-empty, when
 * it consists of numeric characters only if the parameters ask for that, and
 * when the phone number parser accepts it for the configured region. The
 * parser (PhoneNumberKit's `parse(_:withRegion:ignoreType:)`) is a parameter:
 * whether it returns a number for a string and a region, rather than throwing.
 */
module PhoneValidation {
  import opened Text
  import opened PhoneParameters

  /** Whether the phone number parser succeeds on a string for a region. */
  type PhoneNumberParser = (string, string) -> bool

  datatype AdvancedPhoneValidator = AdvancedPhoneValidator(parameters: PhoneValidatorParameters := Init()) {

    /** `value.allSatisfy(\.isNumber)` */
    predicate IsOnlyNumbers(value: string, text: CharacterProperties) {
      AllSatisfy(value, text.isNumber)
    }

    /** The two guards, then the parser's verdict; a thrown error becomes `false`. */
    predicate IsValid(value: string, text: CharacterProperties, parses: PhoneNumberParser) {
      if value == [] then false
      else if parameters.isOnlyNumbersAllowed && !IsOnlyNumbers(value, text) then false
      else parses(value, parameters.region)
    }
  }

  lemma EmptyRejected(v: AdvancedPhoneValidator, text: CharacterProperties, parses: PhoneNumberParser)
    ensures !v.IsValid("", text, parses)
  {
  }

  /** With numbers only, one non-numeric character (`+`, a space, `-`) rejects, whatever the parser would say. */
  lemma NonNumericRejected(v: AdvancedPhoneValidator, value: string, i: int, text: CharacterProperties, parses: PhoneNumberParser)
    requires v.parameters.isOnlyNumbersAllowed
    requires 0 <= i < |value| && !text.isNumber(value[i])
    ensures !v.IsValid(value, text, parses)
  {
  }

  /** With the flag off the characters are never classified: the verdict is the same under any classification. */
  lemma DigitCheckSkippedWhenOff(v: AdvancedPhoneValidator, value: string, text: CharacterProperties, other: CharacterProperties, parses: PhoneNumberParser)
    requires !v.parameters.isOnlyNumbersAllowed
    ensures v.IsValid(value, text, parses) == v.IsValid(value, other, parses)
    ensures v.IsValid(value, text, parses) <==> |value| >= 1 && parses(value, v.parameters.region)
  {
  }

  /** Past the two guards the verdict is the parser's, asked with the configured region. */
  lemma ParserDecides(v: AdvancedPhoneValidator, value: string, text: CharacterProperties, parses: PhoneNumberParser)
    requires |value| >= 1
    requires v.parameters.isOnlyNumbersAllowed ==> forall i | 0 <= i < |value| :: text.isNumber(value[i])
    ensures v.IsValid(value, text, parses) == parses(value, v.parameters.region)
  {
  }

  /** A parser failure is never an acceptance. */
  lemma ParserFailureRejected(v: AdvancedPhoneValidator, value: string, text: CharacterProperties, parses: PhoneNumberParser)
    requires !parses(value, v.parameters.region)
    ensures !v.IsValid(value, text, parses)
  {
  }

  /**
   * Valid exactly when non-empty, with every character counted as numeric if
   * the flag is set, and accepted by the parser.
   */
  lemma ValidIff(v: AdvancedPhoneValidator, value: string, text: CharacterProperties, parses: PhoneNumberParser)
    ensures v.IsValid(value, text, parses) <==>
      && |value| >= 1
      && (v.parameters.isOnlyNumbersAllowed ==> |Filter(value, text.isNumber)| == |value|)
      && parses(value, v.parameters.region)
  {
    FilterKeepsAll(value, text.isNumber);
  }

  /**
   * With the default parameters the documented number is accepted exactly when
   * the parser accepts it for "US"; with numbers only, neither documented
   * example is accepted, whatever the parser.
   */
  lemma DocumentedExamples(text: CharacterProperties, parses: PhoneNumberParser)
    requires AgreesWithAscii(text)
    ensures AdvancedPhoneValidator().IsValid("+1 650-555-1234", text, parses) == parses("+1 650-555-1234", "US")
    ensures !AdvancedPhoneValidator(Init(isOnlyNumbersAllowd := true)).IsValid("+1 650-555-1234", text, parses)
    ensures !AdvancedPhoneValidator(Init(isOnlyNumbersAllowd := true)).IsValid("123ABC", text, parses)
  {
    var s := "+1 650-555-1234";
    assert IsAscii(s[0]) && !IsAsciiDigit(s[0]);
    var t := "123ABC";
    assert IsAscii(t[3]) && !IsAsciiDigit(t[3]);
  }
}
