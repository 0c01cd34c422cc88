/**
 * `DateOfBirthValidatorParameters`: the inclusive age range. The record stores
 * its arguments as given; nothing checks that the minimum is at most the maximum.
 */
module DateOfBirthParameters {

  const DefaultMinAge: int := 18
  const DefaultMaxAge: int := 120

  datatype DateOfBirthValidatorParameters = DateOfBirthValidatorParameters(
    minAge: int := DefaultMinAge,
    maxAge: int := DefaultMaxAge)

  /** The values `DateOfBirthValidatorParameters()` holds. */
  lemma Defaults()
    ensures var p := DateOfBirthValidatorParameters();
      p.minAge == 18 && p.maxAge == 120 && p.minAge <= p.maxAge
  {
  }
}
