/**
 * `FieldValidator<T>`: a validator bound to one value. `Config` replaces both,
 * and `IsValid` asks the held validator about the held value without changing
 * either. The generic parameter `T` is the constant `validatorType`: a
 * configuration must bring a validator of the same type.
 */
module Fields {
  import opened Validators

  class FieldValidator {
    const validatorType: ValidatorType
    var validator: Validator
    var value: string

    /** The held validator is of the instantiated type. */
    ghost predicate Valid()
      reads this
    {
      validator.Type() == validatorType
    }

    /** `init(validator:value:)`: the type is the one of the validator given. */
    constructor(validator: Validator, value: string)
      ensures validatorType == validator.Type()
      ensures this.validator == validator && this.value == value
      ensures Valid()
    {
      validatorType := validator.Type();
      this.validator := validator;
      this.value := value;
    }

    /** `config(validator:value:)`: both stored fields are replaced, and nothing else changes. */
    method Config(validator: Validator, value: string)
      requires Valid() && validator.Type() == validatorType
      modifies this
      ensures this.validator == validator && this.value == value
      ensures Valid()
    {
      this.validator := validator;
      this.value := value;
    }

    /** `isValid()`: the held validator's verdict on the held value; nothing is modified. */
    method IsValid(platform: Platform) returns (b: bool)
      ensures b == validator.IsValid(value, platform)
    {
      b := validator.IsValid(value, platform);
    }
  }

  /** Just after construction, the verdict is the validator's on the value given. */
  method ConstructThenQuery(validator: Validator, value: string, platform: Platform) returns (b: bool)
    ensures b == validator.IsValid(value, platform)
  {
    var f := new FieldValidator(validator, value);
    b := f.IsValid(platform);
  }

  /** After a configuration the verdict is the new validator's on the new value; the old pair has no say. */
  method ConfigThenQuery(f: FieldValidator, validator: Validator, value: string, platform: Platform) returns (b: bool)
    requires f.Valid() && validator.Type() == f.validatorType
    modifies f
    ensures b == validator.IsValid(value, platform)
  {
    f.Config(validator, value);
    b := f.IsValid(platform);
  }

  /** Two queries with no configuration between them agree, and leave the field validator as it was. */
  method QueryTwice(f: FieldValidator, platform: Platform) returns (first: bool, second: bool)
    ensures first == second
  {
    first := f.IsValid(platform);
    second := f.IsValid(platform);
  }

  /** Configuring with the pair already held changes no verdict. */
  method ReconfigureSame(f: FieldValidator, platform: Platform) returns (before: bool, after: bool)
    requires f.Valid()
    modifies f
    ensures before == after
    ensures f.validator == old(f.validator) && f.value == old(f.value)
  {
    before := f.IsValid(platform);
    f.Config(f.validator, f.value);
    after := f.IsValid(platform);
  }
}
