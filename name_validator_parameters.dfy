/**
 * `NameValidatorParameters`: the length range of a name and whether it must
 * consist of letters only. The record stores its arguments as given; nothing
 * checks that the minimum is at most the maximum.
 */
module NameParameters {

  const DefaultMinCharacters: int := 2
  const DefaultMaxCharacters: int := 25

  /** Omitted arguments take the defaults; the letters-only default is the literal `true`. */
  datatype NameValidatorParameters = NameValidatorParameters(
    minAmountOfCharacters: int := DefaultMinCharacters,
    maxAmountOfCharacters: int := DefaultMaxCharacters,
    shouldHaveOnlyLetters: bool := true)

  /** The values `NameValidatorParameters()` holds. */
  lemma Defaults()
    ensures var p := NameValidatorParameters();
      && p.minAmountOfCharacters == 2 && p.maxAmountOfCharacters == 25
      && p.shouldHaveOnlyLetters
      && p.minAmountOfCharacters <= p.maxAmountOfCharacters
  {
  }
}
