/**
 * `SimpleEmailValidator`: the string must match, as a whole and with case taken
 * into account, the pattern `^[A-Z0-9a-z._%+-]+@[A-Za-z0-9.-]+\.[A-Za-z]{2,}$`.
 * The regular-expression engine is replaced by a hand-written recogniser that is
 * proved to accept exactly the strings the pattern matches.
 */
module SimpleEmail {
  import opened Text
  import opened Regex

  /** `[A-Z0-9a-z._%+-]` */
  predicate IsLocalCharacter(c: char) {
    IsAsciiAlphanumeric(c) || c == '.' || c == '_' || c == '%' || c == '+' || c == '-'
  }

  /** `[A-Za-z0-9.-]` */
  predicate IsDomainCharacter(c: char) {
    IsAsciiAlphanumeric(c) || c == '.' || c == '-'
  }

  /** `[A-Za-z0-9.-]+\.[A-Za-z]{2,}` */
  function DomainPattern(): Regex {
    Concat(Plus(Class(IsDomainCharacter)), Concat(Literal('.'), AtLeastTwo(Class(IsAsciiLetter))))
  }

  /** The pattern; `^` and `$` anchor it, so it has to match the whole string. */
  function Pattern(): Regex {
    Concat(Plus(Class(IsLocalCharacter)), Concat(Literal('@'), DomainPattern()))
  }

  predicate IsLocalPart(l: string) {
    |l| >= 1 && forall i | 0 <= i < |l| :: IsLocalCharacter(l[i])
  }

  predicate IsTopLevelDomain(t: string) {
    |t| >= 2 && forall i | 0 <= i < |t| :: IsAsciiLetter(t[i])
  }

  /** Some dot has at least one domain character before it and only letters, two or more, after it. */
  predicate IsDomain(d: string) {
    exists j | 0 < j < |d| ::
      d[j] == '.' && (forall i | 0 <= i < j :: IsDomainCharacter(d[i])) && IsTopLevelDomain(d[j + 1..])
  }

  datatype SimpleEmailValidator = SimpleEmailValidator {

    /** `NSPredicate(format: "SELF MATCHES %@", regex).evaluate(with: value)` */
    predicate IsValid(value: string)
      ensures IsValid(value) <==> Matches(Pattern(), value, false)
    {
      RecogniserMatchesPattern(value);
      exists i | 0 <= i < |value| :: value[i] == '@' && IsLocalPart(value[..i]) && IsDomain(value[i + 1..])
    }
  }

  lemma DomainMatches(d: string)
    ensures Matches(DomainPattern(), d, false) <==> IsDomain(d)
  {
    SplitAtLiteral(Plus(Class(IsDomainCharacter)), '.', AtLeastTwo(Class(IsAsciiLetter)), d, 0, |d|);
    forall j | 0 <= j < |d|
      ensures Span(Plus(Class(IsDomainCharacter)), d, 0, j, false) <==>
              j >= 1 && forall i | 0 <= i < j :: IsDomainCharacter(d[i])
      ensures Span(AtLeastTwo(Class(IsAsciiLetter)), d, j + 1, |d|, false) <==> IsTopLevelDomain(d[j + 1..])
    {
      PlusOfClass(IsDomainCharacter, d, 0, j);
      AtLeastTwoOfClass(IsAsciiLetter, d, j + 1, |d|);
      var t := d[j + 1..];
      assert forall m | 0 <= m < |t| :: t[m] == d[j + 1 + m];
      assert (forall m | j + 1 <= m < |d| :: IsAsciiLetter(d[m])) <==> (forall m | 0 <= m < |t| :: IsAsciiLetter(t[m])) by {
        if forall m | 0 <= m < |t| :: IsAsciiLetter(t[m]) {
          forall m | j + 1 <= m < |d| ensures IsAsciiLetter(d[m]) {
            assert d[m] == t[m - j - 1];
          }
        }
      }
    }
  }

  lemma RecogniserMatchesPattern(s: string)
    ensures Matches(Pattern(), s, false) <==>
            exists i | 0 <= i < |s| :: s[i] == '@' && IsLocalPart(s[..i]) && IsDomain(s[i + 1..])
  {
    SplitAtLiteral(Plus(Class(IsLocalCharacter)), '@', DomainPattern(), s, 0, |s|);
    forall i | 0 <= i < |s|
      ensures Span(Plus(Class(IsLocalCharacter)), s, 0, i, false) <==> IsLocalPart(s[..i])
      ensures Span(DomainPattern(), s, i + 1, |s|, false) <==> IsDomain(s[i + 1..])
    {
      PlusOfClass(IsLocalCharacter, s, 0, i);
      assert forall m | 0 <= m < i :: s[..i][m] == s[m];
      MatchesSlice(DomainPattern(), s, i + 1, |s|);
      assert s[i + 1..|s|] == s[i + 1..];
      DomainMatches(s[i + 1..]);
    }
  }

  // ---------------------------------------------------------------------------
  // The shape of an accepted address
  // ---------------------------------------------------------------------------

  /** An accepted string holds exactly one `@`: any `@` in it is the split point, and there is no other. */
  lemma ExactlyOneAtSign(s: string, i: int)
    requires SimpleEmailValidator().IsValid(s) && 0 <= i < |s| && s[i] == '@'
    ensures IsLocalPart(s[..i]) && IsDomain(s[i + 1..])
    ensures forall j | 0 <= j < |s| && j != i :: s[j] != '@'
  {
    var k :| 0 <= k < |s| && s[k] == '@' && IsLocalPart(s[..k]) && IsDomain(s[k + 1..]);
    NoAtSignInDomain(s[k + 1..]);
    forall j | 0 <= j < |s| && j != k ensures s[j] != '@' {
      if j < k {
        assert s[j] == s[..k][j];
      } else {
        assert s[j] == s[k + 1..][j - k - 1];
      }
    }
  }

  lemma NoAtSignInDomain(d: string)
    requires IsDomain(d)
    ensures forall i | 0 <= i < |d| :: d[i] != '@'
  {
    var j :| 0 < j < |d| && d[j] == '.' && (forall i | 0 <= i < j :: IsDomainCharacter(d[i])) && IsTopLevelDomain(d[j + 1..]);
    forall i | j < i < |d| ensures IsAsciiLetter(d[i]) {
      assert d[i] == d[j + 1..][i - j - 1];
    }
  }

  /**
   * In an accepted domain, the last dot has at least one character before it and
   * two or more ASCII letters, and nothing else, after it; every character is a
   * domain character.
   */
  lemma DomainLastDot(d: string, j: int)
    requires IsDomain(d) && 0 <= j < |d| && d[j] == '.'
    requires forall i | j < i < |d| :: d[i] != '.'
    ensures j >= 1 && |d| - (j + 1) >= 2
    ensures forall i | j < i < |d| :: IsAsciiLetter(d[i])
    ensures forall i | 0 <= i < |d| :: IsDomainCharacter(d[i])
  {
    var k :| 0 < k < |d| && d[k] == '.' && (forall i | 0 <= i < k :: IsDomainCharacter(d[i])) && IsTopLevelDomain(d[k + 1..]);
    forall i | k < i < |d| ensures IsAsciiLetter(d[i]) {
      assert d[i] == d[k + 1..][i - k - 1];
    }
    assert j == k;
  }

  /** Leading and doubled dots are accepted in both parts: the pattern is a permissive approximation. */
  lemma DotsArePermissive()
    ensures SimpleEmailValidator().IsValid(".a@b..cd")
  {
    var s := ".a@b..cd";
    assert s[..2] == ".a";
    assert s[3..] == "b..cd";
    assert IsDomain(s[3..]) by {
      var d := s[3..];
      assert d[3..] == "cd";
      assert d[2] == '.' && (forall i | 0 <= i < 2 :: IsDomainCharacter(d[i])) && IsTopLevelDomain(d[3..]);
    }
    assert s[2] == '@' && IsLocalPart(s[..2]) && IsDomain(s[3..]);
  }

  lemma LocalCharacterIsAscii(c: char)
    requires IsLocalCharacter(c)
    ensures IsAscii(c)
  {
  }

  lemma DomainIsAscii(d: string)
    requires IsDomain(d)
    ensures forall m | 0 <= m < |d| :: IsAscii(d[m])
  {
    var j :| 0 < j < |d| && d[j] == '.' && (forall m | 0 <= m < j :: IsDomainCharacter(d[m])) && IsTopLevelDomain(d[j + 1..]);
    forall m | 0 <= m < |d| ensures IsAscii(d[m]) {
      if m < j {
        assert IsDomainCharacter(d[m]);
      } else if m > j {
        assert d[m] == d[j + 1..][m - j - 1];
        assert IsAsciiLetter(d[m]);
      }
    }
  }

  /** Every character of an accepted string is ASCII. */
  lemma AcceptedIsAscii(s: string)
    requires SimpleEmailValidator().IsValid(s)
    ensures forall k | 0 <= k < |s| :: IsAscii(s[k])
  {
    var i :| 0 <= i < |s| && s[i] == '@' && IsLocalPart(s[..i]) && IsDomain(s[i + 1..]);
    var l, d := s[..i], s[i + 1..];
    DomainIsAscii(d);
    forall k | 0 <= k < |s| ensures IsAscii(s[k]) {
      if k < i {
        assert s[k] == l[k];
        LocalCharacterIsAscii(l[k]);
      } else if k > i {
        assert s[k] == d[k - i - 1];
      }
    }
  }

  /** A string with a character outside ASCII is rejected. */
  lemma NonAsciiRejected(s: string, k: int)
    requires 0 <= k < |s| && !IsAscii(s[k])
    ensures !SimpleEmailValidator().IsValid(s)
  {
    if SimpleEmailValidator().IsValid(s) {
      AcceptedIsAscii(s);
    }
  }

  /** The examples in the validator's documentation. */
  lemma DocumentedExamples()
    ensures SimpleEmailValidator().IsValid("user@example.com")
    ensures !SimpleEmailValidator().IsValid("invalid-email")
    ensures !SimpleEmailValidator().IsValid("")
  {
    var s := "user@example.com";
    assert s[..4] == "user";
    assert s[5..] == "example.com";
    assert IsDomain(s[5..]) by {
      var d := s[5..];
      assert d[8..] == "com";
      assert d[7] == '.' && (forall i | 0 <= i < 7 :: IsDomainCharacter(d[i])) && IsTopLevelDomain(d[8..]);
    }
    assert s[4] == '@' && IsLocalPart(s[..4]) && IsDomain(s[5..]);
    var t := "invalid-email";
    assert forall i | 0 <= i < |t| :: t[i] != '@';
  }

  // ---------------------------------------------------------------------------
  // Case
  // ---------------------------------------------------------------------------

  lemma PatternIsCaseClosed()
    ensures CaseClosed(Pattern())
  {
    ClosedClass(IsLocalCharacter);
    ClosedClass(IsDomainCharacter);
    ClosedClass(IsAsciiLetter);
    StarCaseClosed(Class(IsLocalCharacter));
    StarCaseClosed(Class(IsDomainCharacter));
    StarCaseClosed(Class(IsAsciiLetter));
    LiteralCaseClosed('@');
    LiteralCaseClosed('.');
  }

  /** Every class of the pattern holds of both cases of a letter or of neither, so case never matters. */
  lemma CaseDoesNotMatter(s: string, t: string)
    requires CaseVariant(s, t)
    ensures SimpleEmailValidator().IsValid(s) == SimpleEmailValidator().IsValid(t)
  {
    PatternIsCaseClosed();
    CaseInsensitive(Pattern(), s, t);
  }
}
