/**
 * `AdvancedNameValidator`: a name is valid when it is non-empty, its length
 * lies in the configured range (both ends inclusive) and, when the parameters
 * ask for it, every character is a letter.
 */
module NameValidation {
  import opened Text
  import opened NameParameters

  datatype AdvancedNameValidator = AdvancedNameValidator(parameters: NameValidatorParameters := NameValidatorParameters()) {

    predicate IsAmountOfCharactersValid(value: string) {
      parameters.minAmountOfCharacters <= |value| <= parameters.maxAmountOfCharacters
    }

    /** The rule is skipped unless `shouldHaveOnlyLetters`; then `value.allSatisfy { $0.isLetter }`. */
    predicate IsLetterValid(value: string, text: CharacterProperties) {
      if !parameters.shouldHaveOnlyLetters then true else AllSatisfy(value, text.isLetter)
    }

    /** The guards of `isValid`, in their order. */
    predicate IsValid(value: string, text: CharacterProperties) {
      value != [] && IsAmountOfCharactersValid(value) && IsLetterValid(value, text)
    }
  }

  /**
   * Valid exactly when non-empty, in range, and either the rule is off or
   * filtering the letters keeps every character: the letter count is the length.
   */
  lemma ValidIff(v: AdvancedNameValidator, value: string, text: CharacterProperties)
    ensures v.IsValid(value, text) <==>
      && |value| >= 1
      && v.parameters.minAmountOfCharacters <= |value| <= v.parameters.maxAmountOfCharacters
      && (v.parameters.shouldHaveOnlyLetters ==> |Filter(value, text.isLetter)| == |value|)
  {
    FilterKeepsAll(value, text.isLetter);
  }

  lemma EmptyRejected(v: AdvancedNameValidator, text: CharacterProperties)
    ensures !v.IsValid("", text)
  {
  }

  /** A length outside the range rejects, whatever the content. */
  lemma LengthOutsideRangeRejected(v: AdvancedNameValidator, value: string, text: CharacterProperties)
    requires |value| < v.parameters.minAmountOfCharacters || |value| > v.parameters.maxAmountOfCharacters
    ensures !v.IsValid(value, text)
  {
  }

  lemma EmptyRangeRejectsAll(v: AdvancedNameValidator, value: string, text: CharacterProperties)
    requires v.parameters.minAmountOfCharacters > v.parameters.maxAmountOfCharacters
    ensures !v.IsValid(value, text)
  {
  }

  /** With letters only, one character that is not a letter (a digit, a space, punctuation) rejects. */
  lemma NonLetterRejected(v: AdvancedNameValidator, value: string, i: int, text: CharacterProperties)
    requires v.parameters.shouldHaveOnlyLetters
    requires 0 <= i < |value| && !text.isLetter(value[i])
    ensures !v.IsValid(value, text)
  {
  }

  /** With the rule off the content is ignored: only emptiness and length decide. */
  lemma ContentIgnoredWhenRuleOff(v: AdvancedNameValidator, s: string, t: string, text: CharacterProperties)
    requires !v.parameters.shouldHaveOnlyLetters && |s| == |t|
    ensures v.IsValid(s, text) == v.IsValid(t, text)
  {
  }

  /** Rearranging a name never changes the verdict. */
  lemma OrderIrrelevant(v: AdvancedNameValidator, s: string, t: string, text: CharacterProperties)
    requires multiset(s) == multiset(t)
    ensures v.IsValid(s, text) == v.IsValid(t, text)
  {
    assert |s| == |multiset(s)| == |multiset(t)| == |t|;
    AllSatisfyPermutation(s, t, text.isLetter);
  }

  /** The examples in the validator's documentation, with the default parameters. */
  lemma DocumentedExamples(text: CharacterProperties)
    requires AgreesWithAscii(text)
    ensures AdvancedNameValidator().IsValid("Agustin", text)
    ensures !AdvancedNameValidator().IsValid("A1", text)
  {
    var s := "Agustin";
    forall i | 0 <= i < |s| ensures text.isLetter(s[i]) {
      assert IsAscii(s[i]) && IsAsciiLetter(s[i]);
    }
    var t := "A1";
    assert IsAscii(t[1]) && !IsAsciiLetter(t[1]);
  }
}
