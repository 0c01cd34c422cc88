/**
 * `AdvancedPasswordValidator`: a password is valid when it is non-empty, its
 * length lies in the configured range (both ends inclusive), and it holds at
 * least the configured number of numeric characters and of characters from
 * the configured special set. Both counts run over the whole string, so a
 * character that is numeric and special counts toward both quotas.
 */
module PasswordValidation {
  import opened Text
  import opened PasswordParameters

  /** `specialCharacters.contains(c)`. */
  function InSet(chars: string): (p: char -> bool)
    ensures forall c :: p(c) <==> c in chars
  {
    c => c in chars
  }

  datatype AdvancedPasswordValidator = AdvancedPasswordValidator(parameters: PasswordValidatorParameters := PasswordValidatorParameters()) {

    predicate IsAmountOfCharactersValid(value: string) {
      parameters.minAmountOfCharacters <= |value| <= parameters.maxAmountOfCharacters
    }

    /** `value.filter { $0.isNumber }.count >= minAmountOfNumbers` */
    predicate IsAmountOfNumbersValid(value: string, text: CharacterProperties) {
      |Filter(value, text.isNumber)| >= parameters.minAmountOfNumbers
    }

    /** `value.filter { specialCharacters.contains($0) }.count >= minAmountOfSpecialCharacters` */
    predicate IsAmountOfSpecialCharactersValid(value: string) {
      |Filter(value, InSet(parameters.specialCharacters))| >= parameters.minAmountOfSpecialCharacters
    }

    /** The guards of `isValid`, in their order. */
    predicate IsValid(value: string, text: CharacterProperties) {
      && value != []
      && IsAmountOfCharactersValid(value)
      && IsAmountOfNumbersValid(value, text)
      && IsAmountOfSpecialCharactersValid(value)
    }
  }

  /** Valid exactly when non-empty, in range, and enough positions hold a number and a special character. */
  lemma ValidIff(v: AdvancedPasswordValidator, value: string, text: CharacterProperties)
    ensures v.IsValid(value, text) <==>
      && |value| >= 1
      && v.parameters.minAmountOfCharacters <= |value| <= v.parameters.maxAmountOfCharacters
      && |set i | 0 <= i < |value| && text.isNumber(value[i])| >= v.parameters.minAmountOfNumbers
      && |set i | 0 <= i < |value| && value[i] in v.parameters.specialCharacters| >= v.parameters.minAmountOfSpecialCharacters
  {
    var special := InSet(v.parameters.specialCharacters);
    FilterCountsPositions(value, text.isNumber);
    FilterCountsPositions(value, special);
    assert Positions(value, special) == set i | 0 <= i < |value| && value[i] in v.parameters.specialCharacters;
  }

  /** The empty string is rejected, whatever the parameters, even when every minimum is zero. */
  lemma EmptyRejected(v: AdvancedPasswordValidator, text: CharacterProperties)
    ensures !v.IsValid("", text)
  {
  }

  /** A length outside the range rejects, whatever the content; a length at either end is allowed. */
  lemma LengthOutsideRangeRejected(v: AdvancedPasswordValidator, value: string, text: CharacterProperties)
    requires |value| < v.parameters.minAmountOfCharacters || |value| > v.parameters.maxAmountOfCharacters
    ensures !v.IsValid(value, text)
  {
  }

  /** With the minimum above the maximum nothing is valid. */
  lemma EmptyRangeRejectsAll(v: AdvancedPasswordValidator, value: string, text: CharacterProperties)
    requires v.parameters.minAmountOfCharacters > v.parameters.maxAmountOfCharacters
    ensures !v.IsValid(value, text)
  {
  }

  /** Too few numbers, or too few special characters, rejects. */
  lemma QuotaShortfallRejected(v: AdvancedPasswordValidator, value: string, text: CharacterProperties)
    requires |Filter(value, text.isNumber)| < v.parameters.minAmountOfNumbers
          || |Filter(value, InSet(v.parameters.specialCharacters))| < v.parameters.minAmountOfSpecialCharacters
    ensures !v.IsValid(value, text)
  {
  }

  /**
   * A character that is a number and in the special set meets a quota of one
   * of each on its own: it is counted twice.
   */
  lemma SharedCharacterCountsTwice(v: AdvancedPasswordValidator, c: char, text: CharacterProperties)
    requires text.isNumber(c) && c in v.parameters.specialCharacters
    requires v.parameters.minAmountOfCharacters <= 1 <= v.parameters.maxAmountOfCharacters
    requires v.parameters.minAmountOfNumbers <= 1 && v.parameters.minAmountOfSpecialCharacters <= 1
    ensures v.IsValid([c], text)
  {
    FilterCountPositive([c], text.isNumber, 0);
    FilterCountPositive([c], InSet(v.parameters.specialCharacters), 0);
  }

  /** Under the default set no character counts twice: the two counts together never exceed the length. */
  lemma DefaultQuotasDisjoint(value: string, text: CharacterProperties)
    requires AgreesWithAscii(text)
    ensures |Filter(value, text.isNumber)| + |Filter(value, InSet(DefaultSpecialCharacters))| <= |value|
  {
    forall i | 0 <= i < |value| ensures !(text.isNumber(value[i]) && InSet(DefaultSpecialCharacters)(value[i])) {
      if value[i] in DefaultSpecialCharacters {
        DefaultSpecialCharactersAreNotNumbers(text, value[i]);
      }
    }
    FilterCountDisjoint(value, text.isNumber, InSet(DefaultSpecialCharacters));
  }

  /** Only which characters occur, and how often, matters: rearranging a password never changes the verdict. */
  lemma OrderIrrelevant(v: AdvancedPasswordValidator, s: string, t: string, text: CharacterProperties)
    requires multiset(s) == multiset(t)
    ensures v.IsValid(s, text) == v.IsValid(t, text)
  {
    assert |s| == |multiset(s)| == |multiset(t)| == |t|;
    FilterCountPermutation(s, t, text.isNumber);
    FilterCountPermutation(s, t, InSet(v.parameters.specialCharacters));
  }

  /** The examples in the validator's documentation, with the default parameters. */
  lemma DocumentedExamples(text: CharacterProperties)
    requires AgreesWithAscii(text)
    ensures AdvancedPasswordValidator().IsValid("P@ssw0rd123", text)
    ensures !AdvancedPasswordValidator().IsValid("pass", text)
  {
    var s := "P@ssw0rd123";
    assert IsAscii(s[5]) && IsAsciiDigit(s[5]);
    FilterCountPositive(s, text.isNumber, 5);
    DefaultSpecialCharactersArePunctuation();
    assert IsAsciiPunctuation(s[1]);
    FilterCountPositive(s, InSet(DefaultSpecialCharacters), 1);
  }
}
