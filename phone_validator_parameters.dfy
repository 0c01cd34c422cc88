/**
 * `PhoneValidatorParameters`: whether only numeric characters are allowed, and
 * the region code handed to the phone number parser. The region is not
 * checked when the record is built.
 */
module PhoneParameters {

  const DefaultIsOnlyNumbersAllowed: bool := false
  const DefaultRegion: string := "US"

  datatype PhoneValidatorParameters = PhoneValidatorParameters(isOnlyNumbersAllowed: bool, region: string)

  /** The initialiser: the flag comes from the argument the library labels `isOnlyNumbersAllowd`. */
  function Init(isOnlyNumbersAllowd: bool := DefaultIsOnlyNumbersAllowed, region: string := DefaultRegion): (p: PhoneValidatorParameters)
    ensures p.isOnlyNumbersAllowed == isOnlyNumbersAllowd && p.region == region
  {
    PhoneValidatorParameters(isOnlyNumbersAllowd, region)
  }

  /** The values `PhoneValidatorParameters()` holds. */
  lemma Defaults()
    ensures !Init().isOnlyNumbersAllowed && Init().region == "US"
  {
  }
}
