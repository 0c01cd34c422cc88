/**
 * The validators a `FieldValidator` can hold. Swift's `ValidatorProtocol` and
 * its empty refinements (email, password, name, date of birth, phone) become
 * one sum type over the conforming structs, each answering `IsValid` with the
 * platform facilities its check consults.
 */
module Validators {
  import opened Text
  import opened Calendar
  import SimpleEmail
  import RfcEmail
  import PasswordValidation
  import NameValidation
  import DateOfBirthValidation
  import PhoneValidation

  /** What the platform supplies: Unicode classification, the phone number parser, and today's UTC date. */
  datatype Platform = Platform(text: CharacterProperties, parses: PhoneValidation.PhoneNumberParser, today: Date)

  /** The concrete type a `FieldValidator<T>` is instantiated with. */
  datatype ValidatorType = SimpleEmailType | RfcEmailType | PasswordType | NameType | DateOfBirthType | PhoneType

  datatype Validator =
    | SimpleEmail(simple: SimpleEmail.SimpleEmailValidator)
    | RfcEmail(rfc: RfcEmail.RFCCompliantEmailValidator)
    | Password(password: PasswordValidation.AdvancedPasswordValidator)
    | Name(name: NameValidation.AdvancedNameValidator)
    | DateOfBirth(dateOfBirth: DateOfBirthValidation.AdvancedDateOfBirthValidator)
    | Phone(phone: PhoneValidation.AdvancedPhoneValidator)
  {
    function Type(): ValidatorType {
      match this
      case SimpleEmail(_) => SimpleEmailType
      case RfcEmail(_) => RfcEmailType
      case Password(_) => PasswordType
      case Name(_) => NameType
      case DateOfBirth(_) => DateOfBirthType
      case Phone(_) => PhoneType
    }

    /** `isValid(_:)` of the held struct. */
    predicate IsValid(value: string, platform: Platform) {
      match this
      case SimpleEmail(v) => v.IsValid(value)
      case RfcEmail(v) => v.IsValid(value)
      case Password(v) => v.IsValid(value, platform.text)
      case Name(v) => v.IsValid(value, platform.text)
      case DateOfBirth(v) => v.IsValid(value, platform.today)
      case Phone(v) => v.IsValid(value, platform.text, platform.parses)
    }
  }

  /** Every validator of the library rejects the empty string, whatever its parameters. */
  lemma EmptyAlwaysRejected(v: Validator, platform: Platform)
    ensures !v.IsValid("", platform)
  {
    match v
    case SimpleEmail(_) => SimpleEmail.DocumentedExamples();
    case RfcEmail(_) => RfcEmail.DocumentedExampleRejected();
    case Password(_) =>
    case Name(_) =>
    case DateOfBirth(_) =>
    case Phone(_) =>
  }
}
