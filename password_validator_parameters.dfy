/**
 * `PasswordValidatorParameters`: the rules a password validator applies, with
 * the defaults the library documents. The record stores its arguments as
 * given; nothing checks that the minimum length is at most the maximum.
 */
module PasswordParameters {
  import opened Text

  const DefaultMinCharacters: int := 5
  const DefaultMaxCharacters: int := 30
  const DefaultMinSpecialCharacters: int := 1
  const DefaultMinNumbers: int := 1
  const DefaultSpecialCharacters: string := "!\"#$%&'()*+,-./:;<=>?@[\\]^_`{|}~"

  /** Omitted arguments take the defaults, as in the Swift initialiser. */
  datatype PasswordValidatorParameters = PasswordValidatorParameters(
    minAmountOfCharacters: int := DefaultMinCharacters,
    maxAmountOfCharacters: int := DefaultMaxCharacters,
    minAmountOfSpecialCharacters: int := DefaultMinSpecialCharacters,
    minAmountOfNumbers: int := DefaultMinNumbers,
    specialCharacters: string := DefaultSpecialCharacters)

  /** The printable ASCII characters that are neither letters, digits nor the space. */
  predicate IsAsciiPunctuation(c: char) {
    '!' <= c <= '~' && !IsAsciiAlphanumeric(c)
  }

  /** The values `PasswordValidatorParameters()` holds. */
  lemma Defaults()
    ensures var p := PasswordValidatorParameters();
      && p.minAmountOfCharacters == 5 && p.maxAmountOfCharacters == 30
      && p.minAmountOfSpecialCharacters == 1 && p.minAmountOfNumbers == 1
      && p.specialCharacters == DefaultSpecialCharacters
      && p.minAmountOfCharacters <= p.maxAmountOfCharacters
  {
  }

  /** The ASCII characters `lo` to `hi`, in order. */
  function CharRange(lo: char, hi: char): (r: string)
    requires lo <= hi < 128 as char
    ensures |r| == hi as int - lo as int + 1
    ensures forall i | 0 <= i < |r| :: r[i] as int == lo as int + i
  {
    seq(hi as int - lo as int + 1, i requires 0 <= i <= hi as int - lo as int => (lo as int + i) as char)
  }

  function PunctuationRuns(): string {
    CharRange('!', '/') + CharRange(':', '@') + CharRange('[', '`') + CharRange('{', '~')
  }

  /** The default set is the four runs of punctuation in the ASCII table. */
  lemma DefaultSpecialCharactersRuns()
    ensures DefaultSpecialCharacters == CharRange('!', '/') + CharRange(':', '@') + CharRange('[', '`') + CharRange('{', '~')
  {
  }

  /** The runs hold the 32 ASCII punctuation characters, each once and in code-point order. */
  lemma PunctuationRunsContents()
    ensures var s := PunctuationRuns();
      && |s| == 32
      && (forall c :: c in s <==> IsAsciiPunctuation(c))
      && (forall i, j | 0 <= i < j < |s| :: s[i] < s[j])
  {
    var s := PunctuationRuns();
    assert forall i | 0 <= i < 15 :: s[i] as int == '!' as int + i;
    assert forall i | 15 <= i < 22 :: s[i] as int == ':' as int + i - 15;
    assert forall i | 22 <= i < 28 :: s[i] as int == '[' as int + i - 22;
    assert forall i | 28 <= i < 32 :: s[i] as int == '{' as int + i - 28;
    forall c | IsAsciiPunctuation(c) ensures c in s {
      if c <= '/' {
        assert s[c as int - '!' as int] == c;
      } else if c <= '@' {
        assert s[c as int - ':' as int + 15] == c;
      } else if c <= '`' {
        assert s[c as int - '[' as int + 22] == c;
      } else {
        assert s[c as int - '{' as int + 28] == c;
      }
    }
  }

  /** The default special characters are the 32 ASCII punctuation characters, each once and in code-point order. */
  lemma DefaultSpecialCharactersArePunctuation()
    ensures |DefaultSpecialCharacters| == 32
    ensures forall c :: c in DefaultSpecialCharacters <==> IsAsciiPunctuation(c)
    ensures forall i, j | 0 <= i < j < |DefaultSpecialCharacters| :: DefaultSpecialCharacters[i] < DefaultSpecialCharacters[j]
  {
    DefaultSpecialCharactersRuns();
    PunctuationRunsContents();
  }

  /** Under the default set, no special character is a number, so the two quotas count different characters. */
  lemma DefaultSpecialCharactersAreNotNumbers(text: CharacterProperties, c: char)
    requires AgreesWithAscii(text)
    requires c in DefaultSpecialCharacters
    ensures !text.isNumber(c) && !text.isLetter(c)
  {
    DefaultSpecialCharactersArePunctuation();
  }
}
