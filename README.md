# InputFence validators in Dafny

InputFence is a Swift library of string validators for form fields: e-mail addresses (a simple pattern and an RFC 5322-style pattern), passwords, names, dates of birth and phone numbers. Each validator is a struct with `isValid(_:)` and a parameter record with documented defaults. `FieldValidator<T>` binds one validator to one value.

This project models that core and proves what each validator accepts.

- **E-mail validators.** Each applies one anchored regular expression through `NSPredicate ... MATCHES`. Module `Regex` gives the patterns a small syntax tree and a matching relation (`Span`, `Matches`) over index ranges, with the `[c]` option as a flag. The two patterns are written out in that syntax (`SimpleEmail.Pattern`, `RfcEmail.Pattern`). A hand-written recogniser for each is proved to accept exactly what its pattern matches. The shape of the accepted strings is then proved about the recognisers.
- **Rule-chain validators.** Password, name, date of birth and phone are datatypes over their parameter records. Constructor defaults are the library's defaults. Their `IsValid` predicates follow the `guard` chains of the source. Lemmas characterise acceptance and each way to be rejected, and check the documented examples.
- **Platform facilities.** These are parameters:
  - the Unicode properties `Character.isNumber` and `isLetter` (`Text.CharacterProperties`; examples assume only `AgreesWithAscii`, that is, on ASCII they are the digits and the letters);
  - the phone number parser (`PhoneValidation.PhoneNumberParser`);
  - the clock, as today's UTC calendar date (`Calendar.Date`).

  `Validators.Platform` bundles them.
- **`FieldValidator`.** A class with the two stored fields, a constant standing for the generic parameter `T`, `Config` and a read-only `IsValid`.

Files, one module each: `wrappers.dfy`, `text.dfy`, `regex.dfy`, `simple_email_validator.dfy`, `rfc_email_validator.dfy`, `password_validator_parameters.dfy`, `password_validator.dfy`, `name_validator_parameters.dfy`, `name_validator.dfy`, `calendar.dfy`, `date_of_birth_validator_parameters.dfy`, `date_of_birth_validator.dfy`, `phone_validator_parameters.dfy`, `phone_validator.dfy`, `validators.dfy`, `field_validator.dfy`.

The simple e-mail pattern is applied with `MATCHES`, not `MATCHES[c]`, so it is case-sensitive as written. Its classes list both cases of every letter they accept. So the outcome never depends on case, which `SimpleEmail.CaseDoesNotMatter` proves.

## Model

| member | source | states |
|---|---|---|
| `SimpleEmail.SimpleEmailValidator.IsValid` | Sources/InputFence/EmailValidators/SpecificValidators/SimpleEmailValidator.swift:33-36 | the recogniser (some `@` with a local part before it and a domain after it) accepts exactly the strings the anchored pattern matches as a whole |
| `SimpleEmail.RecogniserMatchesPattern` | Sources/InputFence/EmailValidators/SpecificValidators/SimpleEmailValidator.swift:34 | whole-string match of `^[A-Z0-9a-z._%+-]+@[A-Za-z0-9.-]+\.[A-Za-z]{2,}$` iff some `@` splits the string into a local part and a domain |
| `SimpleEmail.DomainMatches` | Sources/InputFence/EmailValidators/SpecificValidators/SimpleEmailValidator.swift:34 | the domain part of the pattern matches iff some dot has one or more domain characters before it and two or more ASCII letters, only, after it |
| `SimpleEmail.ExactlyOneAtSign` | Sources/InputFence/EmailValidators/SpecificValidators/SimpleEmailValidator.swift:34 | an accepted string contains exactly one `@`, and it is the split point |
| `SimpleEmail.NoAtSignInDomain` | Sources/InputFence/EmailValidators/SpecificValidators/SimpleEmailValidator.swift:34 | no `@` occurs in an accepted domain |
| `SimpleEmail.DomainLastDot` | Sources/InputFence/EmailValidators/SpecificValidators/SimpleEmailValidator.swift:34 | in an accepted domain the last dot has at least one character before it and at least two ASCII letters, and nothing else, after it |
| `SimpleEmail.DotsArePermissive` | Sources/InputFence/EmailValidators/SpecificValidators/SimpleEmailValidator.swift:34 | leading and doubled dots are accepted: `.a@b..cd` is valid |
| `SimpleEmail.AcceptedIsAscii` | Sources/InputFence/EmailValidators/SpecificValidators/SimpleEmailValidator.swift:34 | every character of an accepted string is ASCII |
| `SimpleEmail.NonAsciiRejected` | Sources/InputFence/EmailValidators/SpecificValidators/SimpleEmailValidator.swift:34 | a string with any non-ASCII character is rejected |
| `SimpleEmail.CaseDoesNotMatter` | Sources/InputFence/EmailValidators/SpecificValidators/SimpleEmailValidator.swift:34-35 | changing the case of ASCII letters never changes the verdict |
| `SimpleEmail.DocumentedExamples` | Sources/InputFence/EmailValidators/SpecificValidators/SimpleEmailValidator.swift:21-22 | `user@example.com` is accepted; `invalid-email` and the empty string are rejected |
| `RfcEmail.RFCCompliantEmailValidator.IsValid` | Sources/InputFence/EmailValidators/SpecificValidators/RFCCompliantEmailValidator.swift:41-46 | the recogniser accepts exactly the strings the pattern matches as a whole under the `[c]` option |
| `RfcEmail.RecogniserMatchesPattern` | Sources/InputFence/EmailValidators/SpecificValidators/RFCCompliantEmailValidator.swift:42-44 | a case-insensitive whole-string match iff some `@` splits the string into a local part and a domain |
| `RfcEmail.DotAtomMatches` | Sources/InputFence/EmailValidators/SpecificValidators/RFCCompliantEmailValidator.swift:42 | `atom(?:\.atom)*` matches iff every piece between dots is a non-empty run of atom characters |
| `RfcEmail.DotAtomShape` | Sources/InputFence/EmailValidators/SpecificValidators/RFCCompliantEmailValidator.swift:42 | a dot-atom is exactly a string of atom characters and dots with no leading, trailing or doubled dot |
| `RfcEmail.QuotedContentSpan` | Sources/InputFence/EmailValidators/SpecificValidators/RFCCompliantEmailValidator.swift:42 | the quoted units match a range iff it reads left to right as permitted characters and backslash pairs |
| `RfcEmail.QuotedStringMatches` | Sources/InputFence/EmailValidators/SpecificValidators/RFCCompliantEmailValidator.swift:42 | the quoted-string alternative matches iff the string is quoted, with permitted or escaped characters between the quotes |
| `RfcEmail.LabelMatches` | Sources/InputFence/EmailValidators/SpecificValidators/RFCCompliantEmailValidator.swift:42 | a label is letters, digits and hyphens, beginning and ending with a letter or digit |
| `RfcEmail.DomainNameMatches` | Sources/InputFence/EmailValidators/SpecificValidators/RFCCompliantEmailValidator.swift:42 | `(?:label\.)+[a-zA-Z]{2,}` matches iff there are two or more pieces between dots, all labels but the last, which is two or more ASCII letters |
| `RfcEmail.OctetSpan` | Sources/InputFence/EmailValidators/SpecificValidators/RFCCompliantEmailValidator.swift:42 | the three-branch octet pattern matches exactly one to three digits denoting at most 255 |
| `RfcEmail.AddressMatches` | Sources/InputFence/EmailValidators/SpecificValidators/RFCCompliantEmailValidator.swift:42 | `octet(?:\.octet){3}` matches iff there are exactly four pieces between dots, each an octet |
| `RfcEmail.TaggedMatches` | Sources/InputFence/EmailValidators/SpecificValidators/RFCCompliantEmailValidator.swift:42 | the tagged literal is a tag ending in a letter or digit, a colon, then one or more characters other than line terminators |
| `RfcEmail.DomainLiteralMatches` | Sources/InputFence/EmailValidators/SpecificValidators/RFCCompliantEmailValidator.swift:42 | the bracketed form matches iff brackets enclose an address or a tagged literal |
| `RfcEmail.PatternIsCaseClosed` | Sources/InputFence/EmailValidators/SpecificValidators/RFCCompliantEmailValidator.swift:42 | every class in the pattern holds of both cases of an ASCII letter or of neither |
| `RfcEmail.CaseDoesNotMatter` | Sources/InputFence/EmailValidators/SpecificValidators/RFCCompliantEmailValidator.swift:44 | with `[c]`, changing the case of ASCII letters never changes the verdict, and the match equals the case-sensitive one |
| `RfcEmail.SingleAtSign` | Sources/InputFence/EmailValidators/SpecificValidators/RFCCompliantEmailValidator.swift:42 | when the only `@` separates `l` and `d`, the string is accepted iff `l` is a local part and `d` a domain |
| `RfcEmail.DomainNameOf` | Sources/InputFence/EmailValidators/SpecificValidators/RFCCompliantEmailValidator.swift:42 | a label, a dot and a top-level name form a domain name |
| `RfcEmail.AddressOf` | Sources/InputFence/EmailValidators/SpecificValidators/RFCCompliantEmailValidator.swift:42 | four octets joined by dots form an address |
| `RfcEmail.DomainNameStart` | Sources/InputFence/EmailValidators/SpecificValidators/RFCCompliantEmailValidator.swift:42 | a domain name begins with a letter or digit |
| `RfcEmail.Bracketed` | Sources/InputFence/EmailValidators/SpecificValidators/RFCCompliantEmailValidator.swift:42 | a bracketed domain is never a domain name, and is a literal iff its body is an address or tagged |
| `RfcEmail.FirstPieceNotOctet` | Sources/InputFence/EmailValidators/SpecificValidators/RFCCompliantEmailValidator.swift:42 | an address whose text before the first dot is not an octet is rejected |
| `RfcEmail.DocumentedExampleAccepted` | Sources/InputFence/EmailValidators/SpecificValidators/RFCCompliantEmailValidator.swift:26 | `user@example.com` is accepted |
| `RfcEmail.DocumentedExampleRejected` | Sources/InputFence/EmailValidators/SpecificValidators/RFCCompliantEmailValidator.swift:27 | `invalid-email` and the empty string are rejected |
| `RfcEmail.BareHostRejected` | Sources/InputFence/EmailValidators/SpecificValidators/RFCCompliantEmailValidator.swift:42 | `user@localhost` is rejected: a domain name needs a dot |
| `RfcEmail.AddressLiteralAccepted` | Sources/InputFence/EmailValidators/SpecificValidators/RFCCompliantEmailValidator.swift:42 | `user@[192.168.0.1]` is accepted |
| `RfcEmail.AddressLiteralRejected` | Sources/InputFence/EmailValidators/SpecificValidators/RFCCompliantEmailValidator.swift:42 | `user@[300.1.1.1]` is rejected: 300 is not an octet |
| `RfcEmail.QuotedAtSign` | Sources/InputFence/EmailValidators/SpecificValidators/RFCCompliantEmailValidator.swift:42 | `"a@b"@example.com` is accepted: an `@` may stand between quotes |
| `RfcEmail.LeadingDotRejected` | Sources/InputFence/EmailValidators/SpecificValidators/RFCCompliantEmailValidator.swift:42 | `.a@b.cd` is rejected, unlike with the simple validator |
| `RfcEmail.TaggedLiteralAcceptsNonAscii` | Sources/InputFence/EmailValidators/SpecificValidators/RFCCompliantEmailValidator.swift:42 | `a@[x:é]` is accepted: after the colon of a tagged literal any non-line-terminator may appear |
| `Regex.IgnoreCaseMatching` | Sources/InputFence/EmailValidators/SpecificValidators/RFCCompliantEmailValidator.swift:44 | under `[c]` a range matches in a string iff it matches in any copy of it with ASCII letters changed case |
| `Regex.IgnoreCaseIrrelevant` | Sources/InputFence/EmailValidators/SpecificValidators/RFCCompliantEmailValidator.swift:44 | for a pattern whose classes are closed under case, the `[c]` match of a range equals the case-sensitive one |
| `Regex.CaseInsensitive` | Sources/InputFence/EmailValidators/SpecificValidators/RFCCompliantEmailValidator.swift:44 | for such a pattern, `MATCHES[c]` equals `MATCHES`, and neither changes when ASCII letters change case |
| `Regex.SpanTransfer` | Sources/InputFence/EmailValidators/SpecificValidators/RFCCompliantEmailValidator.swift:44 | whether a range matches case-sensitively depends only on the characters in it, not on their place in the string |
| `Regex.MatchesSlice` | Sources/InputFence/EmailValidators/SpecificValidators/RFCCompliantEmailValidator.swift:44 | a range matches iff the substring it spans matches as a whole, which is what `MATCHES` tests |
| `Regex.SeparatedList` | Sources/InputFence/EmailValidators/SpecificValidators/RFCCompliantEmailValidator.swift:42 | `y(?:cy)*` matches iff every piece between separators matches `y`, when `y` never spans a separator |
| `Regex.SeparatedCount` | Sources/InputFence/EmailValidators/SpecificValidators/RFCCompliantEmailValidator.swift:42 | `y(?:cy){n}` matches iff there are `n + 1` pieces, each matching `y` |
| `Regex.PiecesPlusThenLast` | Sources/InputFence/EmailValidators/SpecificValidators/RFCCompliantEmailValidator.swift:42 | `(?:yc)+z` matches iff there are two or more pieces, all matching `y` but the last, which matches `z` |
| `Regex.StarOfClass` | Sources/InputFence/EmailValidators/SpecificValidators/SimpleEmailValidator.swift:34 | `[p]*` matches a range iff every character in it is in the class |
| `Regex.SplitAtLiteral` | Sources/InputFence/EmailValidators/SpecificValidators/SimpleEmailValidator.swift:34 | `a c b` matches iff some occurrence of `c` has `a` before it and `b` after it |
| `PasswordParameters.Defaults` | Sources/InputFence/PasswordValidators/Parameters/PasswordValidatorParameters.swift:49-78 | the default record holds lengths 5 to 30, one special character, one number, the default special set; 5 ≤ 30 |
| `PasswordParameters.DefaultSpecialCharactersArePunctuation` | Sources/InputFence/PasswordValidators/Parameters/PasswordValidatorParameters.swift:78 | the default special set is the 32 ASCII punctuation characters, each once, in code-point order |
| `PasswordParameters.DefaultSpecialCharactersAreNotNumbers` | Sources/InputFence/PasswordValidators/Parameters/PasswordValidatorParameters.swift:78 | no default special character is a number or a letter |
| `PasswordValidation.ValidIff` | Sources/InputFence/PasswordValidators/SpecificValidators/AdvancedPasswordValidator.swift:38-73 | valid iff non-empty, length in the inclusive range, and enough positions hold a number and a special character, counted over the whole string |
| `PasswordValidation.EmptyRejected` | Sources/InputFence/PasswordValidators/SpecificValidators/AdvancedPasswordValidator.swift:39 | the empty string is rejected whatever the parameters, minimums of zero included |
| `PasswordValidation.LengthOutsideRangeRejected` | Sources/InputFence/PasswordValidators/SpecificValidators/AdvancedPasswordValidator.swift:53-55 | a length below the minimum or above the maximum rejects |
| `PasswordValidation.EmptyRangeRejectsAll` | Sources/InputFence/PasswordValidators/SpecificValidators/AdvancedPasswordValidator.swift:54 | with minimum above maximum nothing is valid |
| `PasswordValidation.QuotaShortfallRejected` | Sources/InputFence/PasswordValidators/SpecificValidators/AdvancedPasswordValidator.swift:61-73 | too few numbers or too few special characters rejects |
| `PasswordValidation.SharedCharacterCountsTwice` | Sources/InputFence/PasswordValidators/SpecificValidators/AdvancedPasswordValidator.swift:62-72 | a character that is numeric and special meets a quota of one of each on its own |
| `PasswordValidation.DefaultQuotasDisjoint` | Sources/InputFence/PasswordValidators/Parameters/PasswordValidatorParameters.swift:78 | under the default set the number count and the special count never exceed the length together |
| `PasswordValidation.OrderIrrelevant` | Sources/InputFence/PasswordValidators/SpecificValidators/AdvancedPasswordValidator.swift:38-73 | rearranging the characters never changes the verdict |
| `PasswordValidation.DocumentedExamples` | Sources/InputFence/PasswordValidators/SpecificValidators/AdvancedPasswordValidator.swift:19-20 | with defaults, `P@ssw0rd123` is valid and `pass` is not |
| `Text.FilterCountsPositions` | Sources/InputFence/PasswordValidators/SpecificValidators/AdvancedPasswordValidator.swift:62 | `filter { p }.count` is the number of positions whose character satisfies `p` |
| `Text.FilterCountPermutation` | Sources/InputFence/PasswordValidators/SpecificValidators/AdvancedPasswordValidator.swift:62 | the count depends only on the multiset of characters |
| `Text.FilterKeepsAll` | Sources/InputFence/NameValidators/SpecificValidators/AdvancedNameValidator.swift:63 | `allSatisfy { p }` holds iff `filter { p }` returns the whole string, iff its count is the length |
| `NameParameters.Defaults` | Sources/InputFence/NameValidators/Parameters/NameValidatorParameters.swift:38-52 | the default record holds lengths 2 to 25 and letters only; 2 ≤ 25 |
| `NameValidation.ValidIff` | Sources/InputFence/NameValidators/SpecificValidators/AdvancedNameValidator.swift:39-64 | valid iff non-empty, length in the inclusive range, and, when letters only is set, filtering the letters keeps every character (`allSatisfy` agrees with the `filter` count, `Text.FilterKeepsAll`) |
| `NameValidation.EmptyRejected` | Sources/InputFence/NameValidators/SpecificValidators/AdvancedNameValidator.swift:40 | the empty string is rejected |
| `NameValidation.LengthOutsideRangeRejected` | Sources/InputFence/NameValidators/SpecificValidators/AdvancedNameValidator.swift:53-55 | a length outside the range rejects whatever the content |
| `NameValidation.EmptyRangeRejectsAll` | Sources/InputFence/NameValidators/SpecificValidators/AdvancedNameValidator.swift:54 | with minimum above maximum nothing is valid |
| `NameValidation.NonLetterRejected` | Sources/InputFence/NameValidators/SpecificValidators/AdvancedNameValidator.swift:61-64 | with letters only, any non-letter rejects |
| `NameValidation.ContentIgnoredWhenRuleOff` | Sources/InputFence/NameValidators/SpecificValidators/AdvancedNameValidator.swift:62 | with the rule off, two names of equal length get the same verdict |
| `NameValidation.OrderIrrelevant` | Sources/InputFence/NameValidators/SpecificValidators/AdvancedNameValidator.swift:39-64 | rearranging the characters never changes the verdict |
| `NameValidation.DocumentedExamples` | Sources/InputFence/NameValidators/SpecificValidators/AdvancedNameValidator.swift:20-21 | with defaults, `Agustin` is valid and `A1` is not |
| `Calendar.DaysInMonth` | Sources/InputFence/DateOfBirthValidators/SpecificValidators/AdvancedDateOfBirthValidator.swift:105-111 | months have 28 to 31 days, and 29 exactly for February of a leap year |
| `Calendar.Anniversary` | Sources/InputFence/DateOfBirthValidators/SpecificValidators/AdvancedDateOfBirthValidator.swift:76 | `n` years later is the same month and day, except that 29 February becomes 28 February in a common year; a real date stays a real date |
| `Calendar.LeapDayAnniversary` | Sources/InputFence/DateOfBirthValidators/SpecificValidators/AdvancedDateOfBirthValidator.swift:76 | a 29 February birthday comes round on 29 February in leap years and on 28 February otherwise |
| `Calendar.YearsBetweenCountsAnniversaries` | Sources/InputFence/DateOfBirthValidators/SpecificValidators/AdvancedDateOfBirthValidator.swift:76 | the whole years from a date are the anniversaries reached: the `n`-th is on or before the end date, the next after it |
| `Calendar.AnniversariesIncrease` | Sources/InputFence/DateOfBirthValidators/SpecificValidators/AdvancedDateOfBirthValidator.swift:76 | successive anniversaries of a date come strictly later |
| `Calendar.YearsBetweenUnique` | Sources/InputFence/DateOfBirthValidators/SpecificValidators/AdvancedDateOfBirthValidator.swift:76 | no other count has that property |
| `Calendar.AtLeastYears` | Sources/InputFence/DateOfBirthValidators/SpecificValidators/AdvancedDateOfBirthValidator.swift:76-86 | at least `n` years have passed iff the `n`-th anniversary is on or before the end date |
| `Calendar.YearsBetweenNonNegative` | Sources/InputFence/DateOfBirthValidators/SpecificValidators/AdvancedDateOfBirthValidator.swift:62-76 | a date not in the future is zero or more whole years back |
| `Calendar.BeforeIsStrictOrder` | Sources/InputFence/DateOfBirthValidators/SpecificValidators/AdvancedDateOfBirthValidator.swift:97-99 | the date order is irreflexive, asymmetric, transitive and total |
| `DateOfBirthParameters.Defaults` | Sources/InputFence/DateOfBirthValidators/Parameters/DateOfBirthValidatorParameters.swift:30-42 | the default record holds ages 18 to 120; 18 ≤ 120 |
| `DateOfBirthValidation.ParseDate` | Sources/InputFence/DateOfBirthValidators/SpecificValidators/AdvancedDateOfBirthValidator.swift:105-111 | a parsed string has ten characters and yields a real calendar date with a year from 1 to 9999 |
| `DateOfBirthValidation.ParseFormat` | Sources/InputFence/DateOfBirthValidators/SpecificValidators/AdvancedDateOfBirthValidator.swift:105-111 | every such date parses back from its `dd/MM/yyyy` form |
| `DateOfBirthValidation.FormatParse` | Sources/InputFence/DateOfBirthValidators/SpecificValidators/AdvancedDateOfBirthValidator.swift:105-111 | every parsed string is the `dd/MM/yyyy` form of its date |
| `DateOfBirthValidation.ParseDigits` | Sources/InputFence/DateOfBirthValidators/SpecificValidators/AdvancedDateOfBirthValidator.swift:107 | day, month and year are read from the two, two and four digits around the slashes |
| `DateOfBirthValidation.EmptyRejected` | Sources/InputFence/DateOfBirthValidators/SpecificValidators/AdvancedDateOfBirthValidator.swift:37 | the empty string is rejected |
| `DateOfBirthValidation.WrongLengthRejected` | Sources/InputFence/DateOfBirthValidators/SpecificValidators/AdvancedDateOfBirthValidator.swift:50-52 | any length other than 10 rejects whatever the content |
| `DateOfBirthValidation.UnparsableRejected` | Sources/InputFence/DateOfBirthValidators/SpecificValidators/AdvancedDateOfBirthValidator.swift:60 | a string that does not parse rejects |
| `DateOfBirthValidation.FutureRejected` | Sources/InputFence/DateOfBirthValidators/SpecificValidators/AdvancedDateOfBirthValidator.swift:62 | a date after today rejects |
| `DateOfBirthValidation.AgeOutsideRangeRejected` | Sources/InputFence/DateOfBirthValidators/SpecificValidators/AdvancedDateOfBirthValidator.swift:80-86 | an age below the minimum or above the maximum rejects |
| `DateOfBirthValidation.EmptyRangeRejectsAll` | Sources/InputFence/DateOfBirthValidators/SpecificValidators/AdvancedDateOfBirthValidator.swift:80-86 | with minimum above maximum nothing is valid |
| `DateOfBirthValidation.AcceptsFormattedDate` | Sources/InputFence/DateOfBirthValidators/SpecificValidators/AdvancedDateOfBirthValidator.swift:36-111 | a written date is accepted iff it is not after today, its minimum-age anniversary has come and its (maximum age + 1)-th has not |
| `DateOfBirthValidation.AcceptedIsFormatted` | Sources/InputFence/DateOfBirthValidators/SpecificValidators/AdvancedDateOfBirthValidator.swift:36-65 | every accepted string is the `dd/MM/yyyy` form of a date |
| `DateOfBirthValidation.EighteenthBirthdayAccepted` | Sources/InputFence/DateOfBirthValidators/SpecificValidators/AdvancedDateOfBirthValidator.swift:80 | on 14/10/2026, `14/10/2008` is accepted: the lower bound is inclusive |
| `DateOfBirthValidation.DayBeforeEighteenthRejected` | Sources/InputFence/DateOfBirthValidators/SpecificValidators/AdvancedDateOfBirthValidator.swift:80-82 | on 14/10/2026, `15/10/2008` is rejected |
| `DateOfBirthValidation.ImpossibleDateRejected` | Sources/InputFence/DateOfBirthValidators/SpecificValidators/AdvancedDateOfBirthValidator.swift:60 | `31/02/2000` does not parse and is rejected |
| `DateOfBirthValidation.LeapDayAccepted` | Sources/InputFence/DateOfBirthValidators/SpecificValidators/AdvancedDateOfBirthValidator.swift:105-111 | `29/02/2000` parses |
| `DateOfBirthValidation.CenturyLeapDayRejected` | Sources/InputFence/DateOfBirthValidators/SpecificValidators/AdvancedDateOfBirthValidator.swift:105-111 | `29/02/1900` does not parse |
| `DateOfBirthValidation.LeapDayBirthdayAccepted` | Sources/InputFence/DateOfBirthValidators/SpecificValidators/AdvancedDateOfBirthValidator.swift:73-88 | born on 29/02/2008, a person is 18 on 28/02/2026 and is accepted |
| `DateOfBirthValidation.LeapDayBirthdayRejected` | Sources/InputFence/DateOfBirthValidators/SpecificValidators/AdvancedDateOfBirthValidator.swift:80-82 | on 27/02/2026 that person is still 17 and is rejected |
| `PhoneParameters.Init` | Sources/InputFence/PhoneValidators/Parameters/PhoneValidatorParameters.swift:32-38 | the initialiser stores the flag given as `isOnlyNumbersAllowd` and the region, unchecked |
| `PhoneParameters.Defaults` | Sources/InputFence/PhoneValidators/Parameters/PhoneValidatorParameters.swift:41-47 | the defaults are numbers-only off and region `US` |
| `PhoneValidation.EmptyRejected` | Sources/InputFence/PhoneValidators/SpecificValidators/AdvancedPhoneValidator.swift:45 | the empty string is rejected |
| `PhoneValidation.NonNumericRejected` | Sources/InputFence/PhoneValidators/SpecificValidators/AdvancedPhoneValidator.swift:47-49 | with numbers only, a non-numeric character rejects whatever the parser says |
| `PhoneValidation.DigitCheckSkippedWhenOff` | Sources/InputFence/PhoneValidators/SpecificValidators/AdvancedPhoneValidator.swift:47 | with the flag off, the character classification plays no part and only emptiness and the parser decide |
| `PhoneValidation.ParserDecides` | Sources/InputFence/PhoneValidators/SpecificValidators/AdvancedPhoneValidator.swift:51-55 | past the two guards the verdict is the parser's on the value and the configured region |
| `PhoneValidation.ParserFailureRejected` | Sources/InputFence/PhoneValidators/SpecificValidators/AdvancedPhoneValidator.swift:56-58 | a parser failure is a rejection, never an error |
| `PhoneValidation.ValidIff` | Sources/InputFence/PhoneValidators/SpecificValidators/AdvancedPhoneValidator.swift:44-67 | valid iff non-empty, with the count of numeric characters equal to the length when the flag is set, and accepted by the parser |
| `PhoneValidation.DocumentedExamples` | Sources/InputFence/PhoneValidators/SpecificValidators/AdvancedPhoneValidator.swift:22-24 | with defaults `+1 650-555-1234` is valid iff the parser accepts it for `US`; with numbers only it and `123ABC` are rejected |
| `Validators.EmptyAlwaysRejected` | Sources/InputFence/Shared/Protocols/ValidatorProtocol.swift:13-19 | every validator of the library rejects the empty string |
| `Fields.FieldValidator.constructor` | Sources/InputFence/Shared/FieldValidator.swift:30-33 | stores the validator and the value; the type is the validator's |
| `Fields.FieldValidator.Config` | Sources/InputFence/Shared/FieldValidator.swift:40-43 | replaces exactly the two stored fields with the arguments |
| `Fields.FieldValidator.IsValid` | Sources/InputFence/Shared/FieldValidator.swift:48-50 | the result is the held validator's verdict on the held value, and nothing changes |
| `Fields.ConstructThenQuery` | Sources/InputFence/Shared/FieldValidator.swift:30-50 | just after construction the verdict is the given validator's on the given value |
| `Fields.ConfigThenQuery` | Sources/InputFence/Shared/FieldValidator.swift:40-50 | after `config` the verdict is the new validator's on the new value |
| `Fields.QueryTwice` | Sources/InputFence/Shared/FieldValidator.swift:48-50 | two queries with nothing between them agree |
| `Fields.ReconfigureSame` | Sources/InputFence/Shared/FieldValidator.swift:40-43 | configuring with the pair already held leaves the fields and the verdict unchanged |

## Left out

- `SmartEmailValidator` is not part of this model. Its check is the platform's link detector, and its only local test compares a UTF-16 range length with the character count.
- The protocol refinements and the type aliases (`EmailValidator`, `PasswordValidator`, `NameValidator`, `UsernameValidator`, `PhoneValidator`) declare no behaviour. The sum type `Validators.Validator` with `ValidatorType` stands for them. `Package.swift` is a build manifest.
- Grapheme clusters: `String.count` and character comparison are modelled on Unicode scalar values (`seq<char>`), so a character built from several scalars counts as several.
- `Character.isNumber` and `isLetter` are parameters. Only their agreement with ASCII on ASCII characters is used, for the documented examples.
- Case folding under `[c]` is modelled for ASCII letters only. ICU's folding of non-ASCII characters, such as the Kelvin sign matching `k`, is not modelled. None of the pattern's letter classes is affected within ASCII.
- `.` in the tagged literal excludes ICU's line terminators (`\n`, `\u{B}`, `\u{C}`, `\r`, `\u{85}`, `\u{2028}`, `\u{2029}`). The pair `\r\n` is not treated as a single terminator.
- `DateOfBirthValidation.ParseDate` is an assumption about `DateFormatter`: a strict `dd/MM/yyyy` recogniser with four-digit years from 0001 and the proleptic Gregorian calendar. The real formatter's leniency, and its Julian calendar before October 1582, are not modelled.
- `Calendar.YearsBetween` is an assumption about `Calendar.current.dateComponents([.year], from:to:)`: it counts the years that can be added to the date of birth without passing today, where adding years keeps the month and day and moves 29 February to 28 February in a common year (`Calendar.Anniversary`). The host time zone used by the calendar is not modelled: the date of birth and today are both UTC calendar dates.
- The `nil` result of `dateComponents(...).year` is not modelled: the model's year difference always exists, so that branch is unreachable.
- The clock `Date()` is the parameter `today`, the UTC date of the current instant. Swift reads the clock twice, once in `isInFuture` and once in `validateAge`. The model reads it once.
- PhoneNumberKit is the parameter `PhoneNumberParser`, whether parsing succeeds for a value and a region. Its numbering-plan rules, and the cost of building a `PhoneNumberKit()` per validator, are not modelled.
- Swift `Int` is 64-bit; the model's integers are unbounded. No comparison in the core can overflow.
- `FieldValidator` is a Swift struct, so copies do not share state. The model is a class, and two references to one object do share it. `config` requires a validator of the held type, which is Swift's static typing of `T`.

