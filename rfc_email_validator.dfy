/**
 * `RFCCompliantEmailValidator`: the string must match, as a whole and with the
 * `[c]` (case-insensitive) option, a pattern modelled on the address syntax of
 * RFC 5322 (section 3.4.1): a dot-atom or a quoted string, `@`, then either a
 * domain name of labels ending in a top-level name of two or more letters, or a
 * bracketed literal holding an IPv4 address or a tagged address. Each piece of
 * the pattern is given its own recogniser, proved to accept exactly what the
 * piece matches.
 */
module RfcEmail {
  import opened Text
  import opened Regex

  // ---------------------------------------------------------------------------
  // Character classes
  // ---------------------------------------------------------------------------

  /** ``[a-zA-Z0-9!#$%&'*+/=?^_`{|}~-]`` */
  predicate IsAtomCharacter(c: char) {
    IsAsciiAlphanumeric(c) ||
    c == '!' || c == '#' || c == '$' || c == '%' || c == '&' || c == '\'' || c == '*' || c == '+' ||
    c == '/' || c == '=' || c == '?' || c == '^' || c == '_' || c == '`' || c == '{' || c == '|' ||
    c == '}' || c == '~' || c == '-'
  }

  /** `[\x01-\x08\x0b\x0c\x0e-\x1f\x21\x23-\x5b\x5d-\x7f]`: what may stand unescaped between the quotes */
  predicate IsQuotedTextCharacter(c: char) {
    var n := c as int;
    (1 <= n <= 8) || n == 11 || n == 12 || (14 <= n <= 31) || n == 33 || (35 <= n <= 91) || (93 <= n <= 127)
  }

  /** `[\x01-\x09\x0b\x0c\x0e-\x7f]`: what may follow a backslash between the quotes */
  predicate IsQuotedPairCharacter(c: char) {
    var n := c as int;
    (1 <= n <= 9) || n == 11 || n == 12 || (14 <= n <= 127)
  }

  /** `[a-zA-Z0-9-]` */
  predicate IsLabelCharacter(c: char) {
    IsAsciiAlphanumeric(c) || c == '-'
  }

  /** The characters ICU treats as line terminators; `.` matches every other character. */
  predicate IsLineTerminator(c: char) {
    var n := c as int;
    (10 <= n <= 13) || n == 0x85 || n == 0x2028 || n == 0x2029
  }

  predicate IsNotLineTerminator(c: char) { !IsLineTerminator(c) }

  predicate IsZeroOrOne(c: char) { c == '0' || c == '1' }
  predicate IsZeroToFour(c: char) { '0' <= c <= '4' }
  predicate IsZeroToFive(c: char) { '0' <= c <= '5' }

  // ---------------------------------------------------------------------------
  // The pattern, piece by piece
  // ---------------------------------------------------------------------------

  function AtomPattern(): Regex { Plus(Class(IsAtomCharacter)) }

  /** `atom(?:\.atom)*` */
  function DotAtomPattern(): Regex { Concat(AtomPattern(), Star(Concat(Literal('.'), AtomPattern()))) }

  /** `(?:[qtext]|\\[qpair])` */
  function QuotedUnitPattern(): Regex {
    Union(Class(IsQuotedTextCharacter), Concat(Literal('\\'), Class(IsQuotedPairCharacter)))
  }

  /** `"(?:[qtext]|\\[qpair])*"` */
  function QuotedStringPattern(): Regex { Concat(Literal('"'), Concat(Star(QuotedUnitPattern()), Literal('"'))) }

  function LocalPartPattern(): Regex { Union(DotAtomPattern(), QuotedStringPattern()) }

  /** `[a-zA-Z0-9](?:[a-zA-Z0-9-]*[a-zA-Z0-9])?` */
  function LabelPattern(): Regex {
    Concat(Class(IsAsciiAlphanumeric), Optional(Concat(Star(Class(IsLabelCharacter)), Class(IsAsciiAlphanumeric))))
  }

  /** `[a-zA-Z]{2,}` */
  function TopLevelPattern(): Regex { AtLeastTwo(Class(IsAsciiLetter)) }

  /** `(?:label\.)+[a-zA-Z]{2,}` */
  function DomainNamePattern(): Regex { Concat(Plus(Concat(LabelPattern(), Literal('.'))), TopLevelPattern()) }

  /** `25[0-5]|2[0-4][0-9]|[01]?[0-9][0-9]?` */
  function OctetPattern(): Regex {
    Union(Concat(Literal('2'), Concat(Literal('5'), Class(IsZeroToFive))),
    Union(Concat(Literal('2'), Concat(Class(IsZeroToFour), Class(IsAsciiDigit))),
          Concat(Optional(Class(IsZeroOrOne)), DigitsPattern())))
  }

  /** `[0-9][0-9]?` */
  function DigitsPattern(): Regex { Concat(Class(IsAsciiDigit), Optional(Class(IsAsciiDigit))) }

  /** `octet(?:\.octet){3}` */
  function AddressPattern(): Regex { Concat(OctetPattern(), Repeat(Concat(Literal('.'), OctetPattern()), 3)) }

  /** `[a-zA-Z0-9-]*[a-zA-Z0-9]` */
  function TagPattern(): Regex { Concat(Star(Class(IsLabelCharacter)), Class(IsAsciiAlphanumeric)) }

  /** `[a-zA-Z0-9-]*[a-zA-Z0-9]:.+` */
  function TaggedPattern(): Regex { Concat(TagPattern(), Concat(Literal(':'), Plus(Class(IsNotLineTerminator)))) }

  /** `\[(?:address|tagged)\]` */
  function DomainLiteralPattern(): Regex { Concat(Literal('['), Concat(Union(AddressPattern(), TaggedPattern()), Literal(']'))) }

  function DomainPattern(): Regex { Union(DomainNamePattern(), DomainLiteralPattern()) }

  /** The whole pattern: local part, `@`, domain. */
  function Pattern(): Regex { Concat(LocalPartPattern(), Concat(Literal('@'), DomainPattern())) }

  // ---------------------------------------------------------------------------
  // Recognisers
  // ---------------------------------------------------------------------------

  predicate IsAtom(piece: string) {
    |piece| >= 1 && forall i | 0 <= i < |piece| :: IsAtomCharacter(piece[i])
  }

  /** Every piece between dots is a non-empty run of atom characters. */
  predicate IsDotAtom(l: string) {
    var pieces := Split(l, '.');
    forall i | 0 <= i < |pieces| :: IsAtom(pieces[i])
  }

  /** A run of unescaped characters and backslash pairs. */
  predicate IsQuotedContent(t: string)
    decreases |t|
  {
    if t == [] then true
    else if t[0] == '\\' then |t| >= 2 && IsQuotedPairCharacter(t[1]) && IsQuotedContent(t[2..])
    else IsQuotedTextCharacter(t[0]) && IsQuotedContent(t[1..])
  }

  predicate IsQuotedString(l: string) {
    |l| >= 2 && l[0] == '"' && l[|l| - 1] == '"' && IsQuotedContent(l[1..|l| - 1])
  }

  predicate IsLocalPart(l: string) { IsDotAtom(l) || IsQuotedString(l) }

  /** Letters, digits and hyphens, beginning and ending with a letter or digit. */
  predicate IsLabel(u: string) {
    |u| >= 1 && IsAsciiAlphanumeric(u[0]) && IsAsciiAlphanumeric(u[|u| - 1]) &&
    forall i | 0 <= i < |u| :: IsLabelCharacter(u[i])
  }

  predicate IsTopLevelName(t: string) {
    |t| >= 2 && forall i | 0 <= i < |t| :: IsAsciiLetter(t[i])
  }

  /** Two or more pieces between dots: labels, then a top-level name. */
  predicate IsDomainName(d: string) {
    var pieces := Split(d, '.');
    |pieces| >= 2 && (forall i | 0 <= i < |pieces| - 1 :: IsLabel(pieces[i])) && IsTopLevelName(pieces[|pieces| - 1])
  }

  /** One to three digits denoting at most 255; leading zeros are allowed. */
  predicate IsOctet(u: string) {
    1 <= |u| <= 3 && AllDigits(u) && DecimalValue(u) <= 255
  }

  /** Exactly four octets between dots. */
  predicate IsAddress(t: string) {
    var pieces := Split(t, '.');
    |pieces| == 4 && forall i | 0 <= i < |pieces| :: IsOctet(pieces[i])
  }

  /** At `k`, a colon follows a tag ending in a letter or digit, and one or more characters that are not line terminators follow it. */
  predicate IsTaggedAt(t: string, k: int)
    requires 0 < k < |t| - 1
  {
    && t[k] == ':'
    && IsAsciiAlphanumeric(t[k - 1])
    && (forall i | 0 <= i < k :: IsLabelCharacter(t[i]))
    && (forall i | k < i < |t| :: IsNotLineTerminator(t[i]))
  }

  predicate IsTagged(t: string) {
    exists k | 0 < k < |t| - 1 :: IsTaggedAt(t, k)
  }

  predicate IsDomainLiteral(d: string) {
    |d| >= 2 && d[0] == '[' && d[|d| - 1] == ']' && (IsAddress(d[1..|d| - 1]) || IsTagged(d[1..|d| - 1]))
  }

  predicate IsDomain(d: string) { IsDomainName(d) || IsDomainLiteral(d) }

  datatype RFCCompliantEmailValidator = RFCCompliantEmailValidator {

    /** `NSPredicate(format: "SELF MATCHES[c] %@", emailRegEx).evaluate(with: value)` */
    predicate IsValid(value: string)
      ensures IsValid(value) <==> Matches(Pattern(), value, true)
    {
      RecogniserMatchesPattern(value);
      exists i | 0 <= i < |value| :: value[i] == '@' && IsLocalPart(value[..i]) && IsDomain(value[i + 1..])
    }
  }

  // ---------------------------------------------------------------------------
  // Each recogniser accepts what its piece of the pattern matches
  // ---------------------------------------------------------------------------

  lemma AtomMatches(u: string)
    ensures Matches(AtomPattern(), u, false) <==> IsAtom(u)
  {
    PlusOfClass(IsAtomCharacter, u, 0, |u|);
  }

  lemma DotAtomMatches(l: string)
    ensures Matches(DotAtomPattern(), l, false) <==> IsDotAtom(l)
  {
    PlusOfClassAvoids(IsAtomCharacter, '.');
    SeparatedList(AtomPattern(), '.', l, 0, |l|);
    assert l[0..|l|] == l;
    var pieces := Split(l, '.');
    forall i | 0 <= i < |pieces| ensures Matches(AtomPattern(), pieces[i], false) <==> IsAtom(pieces[i]) {
      AtomMatches(pieces[i]);
    }
  }

  lemma QuotedUnitSpan(s: string, i: int, k: int)
    requires 0 <= i <= k <= |s|
    ensures Span(QuotedUnitPattern(), s, i, k, false) <==>
            (k == i + 1 && IsQuotedTextCharacter(s[i])) || (k == i + 2 && s[i] == '\\' && IsQuotedPairCharacter(s[i + 1]))
  {
    LiteralThen('\\', Class(IsQuotedPairCharacter), s, i, k);
  }

  /** The units between the quotes are read left to right: a backslash always starts a pair. */
  lemma {:induction false} QuotedContentSpan(s: string, i: int, j: int)
    requires 0 <= i <= j <= |s|
    ensures Span(Star(QuotedUnitPattern()), s, i, j, false) <==> IsQuotedContent(s[i..j])
    decreases j - i
  {
    var q := Star(QuotedUnitPattern());
    if i < j {
      var t := s[i..j];
      assert t[0] == s[i] && t[1..] == s[i + 1..j];
      if j - i >= 2 {
        assert t[1] == s[i + 1] && t[2..] == s[i + 2..j];
      }
      forall k | i < k <= j
        ensures Span(QuotedUnitPattern(), s, i, k, false) <==>
                (k == i + 1 && IsQuotedTextCharacter(s[i])) || (k == i + 2 && s[i] == '\\' && IsQuotedPairCharacter(s[i + 1]))
      {
        QuotedUnitSpan(s, i, k);
      }
      if s[i] == '\\' {
        if i + 2 <= j {
          QuotedContentSpan(s, i + 2, j);
        }
      } else {
        QuotedContentSpan(s, i + 1, j);
      }
      if Span(q, s, i, j, false) {
        assert Span(q, s, i, j, false);
        var k :| i < k <= j && Span(QuotedUnitPattern(), s, i, k, false) && Span(q, s, k, j, false);
      }
      if IsQuotedContent(t) {
        var k := if s[i] == '\\' then i + 2 else i + 1;
        assert Span(QuotedUnitPattern(), s, i, k, false);
      }
    }
  }

  lemma QuotedStringMatches(l: string)
    ensures Matches(QuotedStringPattern(), l, false) <==> IsQuotedString(l)
  {
    var q := Star(QuotedUnitPattern());
    LiteralThen('"', Concat(q, Literal('"')), l, 0, |l|);
    if |l| >= 1 {
      ThenLiteral(q, '"', l, 1, |l|);
      if |l| >= 2 {
        QuotedContentSpan(l, 1, |l| - 1);
      }
    }
  }

  /** A label: letters, digits and hyphens, beginning and ending with a letter or digit. */
  lemma LabelSpan(s: string, i: int, j: int)
    requires 0 <= i <= j <= |s|
    ensures Span(LabelPattern(), s, i, j, false) <==>
            i < j && IsAsciiAlphanumeric(s[i]) && IsAsciiAlphanumeric(s[j - 1]) &&
            forall m | i <= m < j :: IsLabelCharacter(s[m])
  {
    var tail := Concat(Star(Class(IsLabelCharacter)), Class(IsAsciiAlphanumeric));
    assert Optional(tail) == Union(tail, Epsilon);
    ClassThen(IsAsciiAlphanumeric, Optional(tail), s, i, j);
    if i < j {
      assert Span(Optional(tail), s, i + 1, j, false) <==> Span(tail, s, i + 1, j, false) || i + 1 == j;
      ThenClass(Star(Class(IsLabelCharacter)), IsAsciiAlphanumeric, s, i + 1, j);
      if i + 1 < j {
        StarOfClass(IsLabelCharacter, s, i + 1, j - 1);
      }
    }
  }

  lemma LabelMatches(u: string)
    ensures Matches(LabelPattern(), u, false) <==> IsLabel(u)
  {
    LabelSpan(u, 0, |u|);
  }

  lemma LabelAvoidsDot()
    ensures Avoids(LabelPattern(), '.')
  {
    forall s: string, i: int, j: int, m: int | 0 <= i <= m < j <= |s| && Span(LabelPattern(), s, i, j, false)
      ensures s[m] != '.'
    {
      LabelSpan(s, i, j);
    }
  }

  lemma DomainNameMatches(d: string)
    ensures Matches(DomainNamePattern(), d, false) <==> IsDomainName(d)
  {
    LabelAvoidsDot();
    AtLeastTwoOfClassAvoids(IsAsciiLetter, '.');
    PiecesPlusThenLast(LabelPattern(), '.', TopLevelPattern(), d, 0, |d|);
    assert d[0..|d|] == d;
    var pieces := Split(d, '.');
    forall i | 0 <= i < |pieces| - 1 ensures Matches(LabelPattern(), pieces[i], false) <==> IsLabel(pieces[i]) {
      LabelMatches(pieces[i]);
    }
    var last := pieces[|pieces| - 1];
    AtLeastTwoOfClass(IsAsciiLetter, last, 0, |last|);
  }

  /** `[0-9][0-9]?` */
  lemma DigitsSpan(s: string, i: int, j: int)
    requires 0 <= i <= j <= |s|
    ensures Span(DigitsPattern(), s, i, j, false) <==> (j == i + 1 || j == i + 2) && forall m | i <= m < j :: IsAsciiDigit(s[m])
  {
    assert Optional(Class(IsAsciiDigit)) == Union(Class(IsAsciiDigit), Epsilon);
    ClassThen(IsAsciiDigit, Optional(Class(IsAsciiDigit)), s, i, j);
  }


  /** The three branches of the octet pattern: `25[0-5]`, `2[0-4][0-9]` and `[01]?[0-9][0-9]?`. */
  lemma OctetBranches(s: string, i: int, j: int)
    requires 0 <= i <= j <= |s|
    ensures Span(OctetPattern(), s, i, j, false) <==>
            || (j == i + 3 && s[i] == '2' && s[i + 1] == '5' && IsZeroToFive(s[i + 2]))
            || (j == i + 3 && s[i] == '2' && IsZeroToFour(s[i + 1]) && IsAsciiDigit(s[i + 2]))
            || ((j == i + 1 || j == i + 2) && forall m | i <= m < j :: IsAsciiDigit(s[m]))
            || (i < j && IsZeroOrOne(s[i]) && (j == i + 2 || j == i + 3) && forall m | i + 1 <= m < j :: IsAsciiDigit(s[m]))
  {
    LiteralThen('2', Concat(Literal('5'), Class(IsZeroToFive)), s, i, j);
    LiteralThen('2', Concat(Class(IsZeroToFour), Class(IsAsciiDigit)), s, i, j);
    OptionalThen(Class(IsZeroOrOne), DigitsPattern(), s, i, j);
    ClassThen(IsZeroOrOne, DigitsPattern(), s, i, j);
    DigitsSpan(s, i, j);
    if i < j {
      LiteralThen('5', Class(IsZeroToFive), s, i + 1, j);
      ClassThen(IsZeroToFour, Class(IsAsciiDigit), s, i + 1, j);
      DigitsSpan(s, i + 1, j);
    }
  }

  /** One to three digits denoting at most 255 are exactly what the octet pattern matches. */
  lemma OctetSpan(s: string, i: int, j: int)
    requires 0 <= i <= j <= |s|
    ensures Span(OctetPattern(), s, i, j, false) <==> IsOctet(s[i..j])
  {
    OctetBranches(s, i, j);
    var u := s[i..j];
    assert forall m | 0 <= m < |u| :: u[m] == s[i + m];
    if 1 <= |u| <= 3 && AllDigits(u) {
      SmallDecimalValue(u);
      assert forall m | i <= m < j :: IsAsciiDigit(s[m]) by {
        forall m | i <= m < j ensures IsAsciiDigit(s[m]) {
          assert s[m] == u[m - i];
        }
      }
    }
  }

  lemma OctetMatches(u: string)
    ensures Matches(OctetPattern(), u, false) <==> IsOctet(u)
  {
    OctetSpan(u, 0, |u|);
    assert u[0..|u|] == u;
  }

  lemma OctetAvoidsDot()
    ensures Avoids(OctetPattern(), '.')
  {
    forall s: string, i: int, j: int, m: int | 0 <= i <= m < j <= |s| && Span(OctetPattern(), s, i, j, false)
      ensures s[m] != '.'
    {
      OctetSpan(s, i, j);
      assert s[m] == s[i..j][m - i];
    }
  }

  lemma AddressMatches(t: string)
    ensures Matches(AddressPattern(), t, false) <==> IsAddress(t)
  {
    OctetAvoidsDot();
    SeparatedCount(OctetPattern(), '.', 3, t, 0, |t|);
    assert t[0..|t|] == t;
    var pieces := Split(t, '.');
    forall i | 0 <= i < |pieces| ensures Matches(OctetPattern(), pieces[i], false) <==> IsOctet(pieces[i]) {
      OctetMatches(pieces[i]);
    }
  }

  /** `[a-zA-Z0-9-]*[a-zA-Z0-9]` */
  lemma TagSpan(s: string, i: int, j: int)
    requires 0 <= i <= j <= |s|
    ensures Span(TagPattern(), s, i, j, false) <==>
            i < j && IsAsciiAlphanumeric(s[j - 1]) && forall m | i <= m < j :: IsLabelCharacter(s[m])
  {
    ThenClass(Star(Class(IsLabelCharacter)), IsAsciiAlphanumeric, s, i, j);
    if i < j {
      StarOfClass(IsLabelCharacter, s, i, j - 1);
    }
  }

  lemma TaggedMatches(t: string)
    ensures Matches(TaggedPattern(), t, false) <==> IsTagged(t)
  {
    SplitAtLiteral(TagPattern(), ':', Plus(Class(IsNotLineTerminator)), t, 0, |t|);
    forall k | 0 <= k < |t|
      ensures Span(TagPattern(), t, 0, k, false) <==>
              0 < k && IsAsciiAlphanumeric(t[k - 1]) && forall m | 0 <= m < k :: IsLabelCharacter(t[m])
      ensures Span(Plus(Class(IsNotLineTerminator)), t, k + 1, |t|, false) <==>
              k + 1 < |t| && forall m | k < m < |t| :: IsNotLineTerminator(t[m])
    {
      TagSpan(t, 0, k);
      PlusOfClass(IsNotLineTerminator, t, k + 1, |t|);
    }
    if Matches(TaggedPattern(), t, false) {
      var k :| 0 <= k < |t| && t[k] == ':' && Span(TagPattern(), t, 0, k, false) &&
               Span(Plus(Class(IsNotLineTerminator)), t, k + 1, |t|, false);
      assert IsTaggedAt(t, k);
    }
    if IsTagged(t) {
      var k :| 0 < k < |t| - 1 && IsTaggedAt(t, k);
      assert t[k] == ':' && Span(TagPattern(), t, 0, k, false) && Span(Plus(Class(IsNotLineTerminator)), t, k + 1, |t|, false);
    }
  }

  lemma DomainLiteralMatches(d: string)
    ensures Matches(DomainLiteralPattern(), d, false) <==> IsDomainLiteral(d)
  {
    var body := Union(AddressPattern(), TaggedPattern());
    LiteralThen('[', Concat(body, Literal(']')), d, 0, |d|);
    if |d| >= 1 {
      ThenLiteral(body, ']', d, 1, |d|);
      if |d| >= 2 {
        MatchesSlice(AddressPattern(), d, 1, |d| - 1);
        MatchesSlice(TaggedPattern(), d, 1, |d| - 1);
        AddressMatches(d[1..|d| - 1]);
        TaggedMatches(d[1..|d| - 1]);
      }
    }
  }

  // ---------------------------------------------------------------------------
  // The pattern as a whole
  // ---------------------------------------------------------------------------

  lemma LocalPartIsCaseClosed()
    ensures CaseClosed(LocalPartPattern())
  {
    ClosedClass(IsAtomCharacter);
    StarCaseClosed(Class(IsAtomCharacter));
    LiteralCaseClosed('.');
    StarCaseClosed(Concat(Literal('.'), AtomPattern()));
    assert CaseClosed(DotAtomPattern());
    ClosedClass(IsQuotedTextCharacter);
    ClosedClass(IsQuotedPairCharacter);
    LiteralCaseClosed('\\');
    StarCaseClosed(QuotedUnitPattern());
    LiteralCaseClosed('"');
    assert CaseClosed(QuotedStringPattern());
  }

  lemma DomainNameIsCaseClosed()
    ensures CaseClosed(DomainNamePattern())
  {
    ClosedClass(IsAsciiAlphanumeric);
    ClosedClass(IsLabelCharacter);
    StarCaseClosed(Class(IsLabelCharacter));
    StarCaseClosed(Concat(Star(Class(IsLabelCharacter)), Class(IsAsciiAlphanumeric)));
    assert CaseClosed(LabelPattern());
    LiteralCaseClosed('.');
    StarCaseClosed(Concat(LabelPattern(), Literal('.')));
    ClosedClass(IsAsciiLetter);
    StarCaseClosed(Class(IsAsciiLetter));
  }

  lemma OctetIsCaseClosed()
    ensures CaseClosed(OctetPattern())
  {
    ClosedClass(IsAsciiDigit);
    ClosedClass(IsZeroOrOne);
    ClosedClass(IsZeroToFour);
    ClosedClass(IsZeroToFive);
    LiteralCaseClosed('2');
    LiteralCaseClosed('5');
    StarCaseClosed(Class(IsAsciiDigit));
    StarCaseClosed(Class(IsZeroOrOne));
    assert CaseClosed(DigitsPattern());
  }

  lemma DomainLiteralIsCaseClosed()
    ensures CaseClosed(DomainLiteralPattern())
  {
    OctetIsCaseClosed();
    LiteralCaseClosed('.');
    RepeatCaseClosed(Concat(Literal('.'), OctetPattern()), 3);
    assert CaseClosed(AddressPattern());
    ClosedClass(IsAsciiAlphanumeric);
    ClosedClass(IsLabelCharacter);
    ClosedClass(IsNotLineTerminator);
    StarCaseClosed(Class(IsLabelCharacter));
    StarCaseClosed(Class(IsNotLineTerminator));
    LiteralCaseClosed(':');
    assert CaseClosed(TaggedPattern());
    LiteralCaseClosed('[');
    LiteralCaseClosed(']');
  }

  /** Every class of the pattern holds of both cases of an ASCII letter or of neither. */
  lemma PatternIsCaseClosed()
    ensures CaseClosed(Pattern())
  {
    LocalPartIsCaseClosed();
    DomainNameIsCaseClosed();
    DomainLiteralIsCaseClosed();
    LiteralCaseClosed('@');
    assert CaseClosed(DomainPattern());
  }

  lemma LocalPartSpan(s: string, i: int)
    requires 0 <= i <= |s|
    ensures Span(LocalPartPattern(), s, 0, i, false) <==> IsLocalPart(s[..i])
  {
    MatchesSlice(DotAtomPattern(), s, 0, i);
    MatchesSlice(QuotedStringPattern(), s, 0, i);
    assert s[0..i] == s[..i];
    DotAtomMatches(s[..i]);
    QuotedStringMatches(s[..i]);
  }

  lemma DomainSpan(s: string, i: int)
    requires 0 <= i < |s|
    ensures Span(DomainPattern(), s, i + 1, |s|, false) <==> IsDomain(s[i + 1..])
  {
    MatchesSlice(DomainNamePattern(), s, i + 1, |s|);
    MatchesSlice(DomainLiteralPattern(), s, i + 1, |s|);
    assert s[i + 1..|s|] == s[i + 1..];
    DomainNameMatches(s[i + 1..]);
    DomainLiteralMatches(s[i + 1..]);
  }

  lemma RecogniserMatchesPattern(s: string)
    ensures Matches(Pattern(), s, true) <==>
            exists i | 0 <= i < |s| :: s[i] == '@' && IsLocalPart(s[..i]) && IsDomain(s[i + 1..])
  {
    PatternIsCaseClosed();
    IgnoreCaseIrrelevant(Pattern(), s, 0, |s|);
    SplitAtLiteral(LocalPartPattern(), '@', DomainPattern(), s, 0, |s|);
    forall i | 0 <= i < |s|
      ensures Span(LocalPartPattern(), s, 0, i, false) <==> IsLocalPart(s[..i])
      ensures Span(DomainPattern(), s, i + 1, |s|, false) <==> IsDomain(s[i + 1..])
    {
      LocalPartSpan(s, i);
      DomainSpan(s, i);
    }
  }

  // ---------------------------------------------------------------------------
  // The shape of a dot-atom
  // ---------------------------------------------------------------------------

  /** Atom characters and dots, neither first nor last, never two in a row. */
  predicate IsDotAtomShape(l: string) {
    && |l| >= 1 && l[0] != '.' && l[|l| - 1] != '.'
    && (forall i | 0 <= i < |l| :: IsAtomCharacter(l[i]) || l[i] == '.')
    && (forall i | 0 <= i < |l| - 1 :: l[i] == '.' ==> l[i + 1] != '.')
  }

  /** A dot-atom is its first atom, a dot, then a dot-atom. */
  lemma DotAtomCons(l: string, k: nat)
    requires k < |l| && l[k] == '.' && '.' !in l[..k]
    ensures IsDotAtom(l) <==> IsAtom(l[..k]) && IsDotAtom(l[k + 1..])
  {
    SplitAtFirst(l, '.', k);
    var rest := Split(l[k + 1..], '.');
    var all := Split(l, '.');
    assert all[0] == l[..k];
    assert forall i | 0 <= i < |rest| :: all[i + 1] == rest[i];
    if IsAtom(l[..k]) && IsDotAtom(l[k + 1..]) {
      forall i | 0 <= i < |all| ensures IsAtom(all[i]) {
        if i > 0 {
          assert all[i] == rest[i - 1];
        }
      }
    }
  }

  /** The same step for the shape. */
  lemma ShapeCons(l: string, k: nat)
    requires k < |l| && l[k] == '.' && '.' !in l[..k]
    ensures IsDotAtomShape(l) <==> IsAtom(l[..k]) && IsDotAtomShape(l[k + 1..])
  {
    var head, rest := l[..k], l[k + 1..];
    assert forall i | 0 <= i < k :: head[i] == l[i];
    assert forall i | 0 <= i < |rest| :: rest[i] == l[k + 1 + i];
    if IsDotAtomShape(l) {
      forall i | 0 <= i < k ensures IsAtomCharacter(head[i]) {
        assert head[i] != '.';
      }
      assert k >= 1;
      assert k + 1 < |l|;
      forall i | 0 <= i < |rest| ensures IsAtomCharacter(rest[i]) || rest[i] == '.' {
        assert rest[i] == l[k + 1 + i];
      }
      forall i | 0 <= i < |rest| - 1 ensures rest[i] == '.' ==> rest[i + 1] != '.' {
        assert rest[i] == l[k + 1 + i] && rest[i + 1] == l[k + 1 + i + 1];
      }
    }
    if IsAtom(head) && IsDotAtomShape(rest) {
      forall i | 0 <= i < |l| ensures IsAtomCharacter(l[i]) || l[i] == '.' {
        if i < k {
          assert l[i] == head[i];
        } else if i > k {
          assert l[i] == rest[i - k - 1];
        }
      }
      forall i | 0 <= i < |l| - 1 ensures l[i] == '.' ==> l[i + 1] != '.' {
        if i < k - 1 {
          assert l[i] == head[i];
        } else if i == k - 1 {
          assert l[i] == head[i];
        } else if i == k {
          assert l[i + 1] == rest[0];
        } else {
          assert l[i] == rest[i - k - 1] && l[i + 1] == rest[i - k];
        }
      }
      assert l[0] == head[0];
      assert l[|l| - 1] == rest[|rest| - 1];
    }
  }

  /**
   * The dot-atom form of the local part: atoms separated by single dots, with no
   * leading, trailing or doubled dot.
   */
  lemma {:induction false} DotAtomShape(l: string)
    ensures IsDotAtom(l) <==> IsDotAtomShape(l)
    decreases |l|
  {
    if '.' in l {
      var k := IndexOf(l, '.');
      DotAtomCons(l, k);
      ShapeCons(l, k);
      DotAtomShape(l[k + 1..]);
    } else {
      SplitWithout(l, '.');
      assert Split(l, '.')[0] == l;
      if IsAtom(l) {
        assert l[0] != '.' && l[|l| - 1] != '.';
      }
    }
  }

  // ---------------------------------------------------------------------------
  // Examples and case
  // ---------------------------------------------------------------------------

  /** A label, a dot and a top-level name make a domain name. */
  lemma DomainNameOf(name: string, top: string)
    requires IsLabel(name) && IsTopLevelName(top)
    ensures IsDomainName(name + "." + top)
  {
    assert '.' !in name by {
      assert forall i | 0 <= i < |name| :: IsLabelCharacter(name[i]);
    }
    assert '.' !in top by {
      assert forall i | 0 <= i < |top| :: IsAsciiLetter(top[i]);
    }
    SplitCons(name, '.', top);
    SplitWithout(top, '.');
  }

  /** Four octets with dots between them make an address. */
  lemma AddressOf(a: string, b: string, c: string, d: string)
    requires IsOctet(a) && IsOctet(b) && IsOctet(c) && IsOctet(d)
    ensures IsAddress(a + "." + b + "." + c + "." + d)
  {
    forall u | IsOctet(u) ensures '.' !in u {
      assert forall i | 0 <= i < |u| :: IsAsciiDigit(u[i]);
    }
    SplitCons(a, '.', b + "." + c + "." + d);
    SplitCons(b, '.', c + "." + d);
    SplitCons(c, '.', d);
    SplitWithout(d, '.');
    assert a + "." + b + "." + c + "." + d == a + ['.'] + (b + ['.'] + (c + ['.'] + d));
    assert b + "." + c + "." + d == b + ['.'] + (c + ['.'] + d);
    assert c + "." + d == c + ['.'] + d;
  }

  /** A domain name begins with a letter or digit: the first character of its first label. */
  lemma DomainNameStart(d: string)
    requires IsDomainName(d)
    ensures |d| >= 1 && IsAsciiAlphanumeric(d[0])
  {
    SplitFirstPiece(d, '.');
    var first := Split(d, '.')[0];
    assert IsLabel(first);
    assert first[0] == d[0];
  }

  /** With a single `@`, the string is accepted exactly when the local part and the domain are. */
  lemma SingleAtSign(l: string, d: string)
    requires '@' !in l && '@' !in d
    ensures RFCCompliantEmailValidator().IsValid(l + "@" + d) <==> IsLocalPart(l) && IsDomain(d)
  {
    var s := l + "@" + d;
    assert s[..|l|] == l && s[|l|] == '@' && s[|l| + 1..] == d;
  }

  /** A bracketed domain is never a domain name, and is a domain literal exactly when its body is an address or tagged. */
  lemma Bracketed(body: string)
    ensures !IsDomainName("[" + body + "]")
    ensures IsDomainLiteral("[" + body + "]") <==> IsAddress(body) || IsTagged(body)
  {
    var d := "[" + body + "]";
    assert d[1..|d| - 1] == body;
    if IsDomainName(d) {
      DomainNameStart(d);
    }
  }



  lemma UserIsLocalPart()
    ensures IsLocalPart("user")
  {
    SplitWithout("user", '.');
  }

  lemma ExampleComIsDomainName()
    ensures IsDomainName("example.com")
  {
    DomainNameOf("example", "com");
    assert "example" + "." + "com" == "example.com";
  }

  /** The accepted example in the validator's documentation. */
  lemma DocumentedExampleAccepted()
    ensures RFCCompliantEmailValidator().IsValid("user@example.com")
  {
    var s := "user@example.com";
    assert s[..4] == "user" && s[5..] == "example.com";
    UserIsLocalPart();
    ExampleComIsDomainName();
    assert s[4] == '@' && IsLocalPart(s[..4]) && IsDomain(s[5..]);
  }

  /** The rejected example in the validator's documentation, and the empty string. */
  lemma DocumentedExampleRejected()
    ensures !RFCCompliantEmailValidator().IsValid("invalid-email")
    ensures !RFCCompliantEmailValidator().IsValid("")
  {
    var t := "invalid-email";
    assert forall i | 0 <= i < |t| :: t[i] != '@';
  }

  lemma LocalhostIsNotDomain()
    ensures !IsDomain("localhost")
  {
    SplitWithout("localhost", '.');
  }

  /** A domain name needs a dot: a bare host name is rejected. */
  lemma BareHostRejected()
    ensures !RFCCompliantEmailValidator().IsValid("user@localhost")
  {
    var s := "user@localhost";
    forall i | 0 <= i < |s| && s[i] == '@' ensures !IsDomain(s[i + 1..]) {
      assert i == 4;
      assert s[5..] == "localhost";
      LocalhostIsNotDomain();
    }
  }

  lemma SampleAddress()
    ensures IsAddress("192.168.0.1")
  {
    SmallDecimalValue("192");
    SmallDecimalValue("168");
    AddressOf("192", "168", "0", "1");
    assert "192" + "." + "168" + "." + "0" + "." + "1" == "192.168.0.1";
  }

  /** A bracketed IPv4 address is accepted when every octet is at most 255. */
  lemma AddressLiteralAccepted()
    ensures RFCCompliantEmailValidator().IsValid("user@[192.168.0.1]")
  {
    var s := "user@[192.168.0.1]";
    assert s[..4] == "user" && s[5..] == "[" + "192.168.0.1" + "]";
    UserIsLocalPart();
    SampleAddress();
    Bracketed("192.168.0.1");
    assert s[4] == '@' && IsLocalPart(s[..4]) && IsDomain(s[5..]);
  }

  /** An address whose text before its first dot is not an octet is rejected. */
  lemma FirstPieceNotOctet(t: string, k: nat)
    requires k < |t| && t[k] == '.' && '.' !in t[..k] && !IsOctet(t[..k])
    ensures !IsAddress(t)
  {
    SplitAtFirst(t, '.', k);
    assert Split(t, '.')[0] == t[..k];
  }

  lemma OutOfRangeAddress()
    ensures !IsAddress("300.1.1.1") && !IsTagged("300.1.1.1")
  {
    var t := "300.1.1.1";
    assert t[..3] == "300";
    SmallDecimalValue("300");
    FirstPieceNotOctet(t, 3);
    assert forall k | 0 <= k < |t| :: t[k] != ':';
  }

  /** An octet above 255 is rejected. */
  lemma AddressLiteralRejected()
    ensures !RFCCompliantEmailValidator().IsValid("user@[300.1.1.1]")
  {
    var s := "user@[300.1.1.1]";
    forall i | 0 <= i < |s| && s[i] == '@' ensures !IsDomain(s[i + 1..]) {
      assert i == 4;
      assert s[5..] == "[" + "300.1.1.1" + "]";
      Bracketed("300.1.1.1");
      OutOfRangeAddress();
    }
  }

  lemma QuotedLocalPart()
    ensures IsQuotedString("\"a@b\"")
  {
    var l := "\"a@b\"";
    assert l[1..|l| - 1] == "a@b";
    assert IsQuotedContent("b"[1..]);
    assert IsQuotedContent("@b"[1..]);
    assert IsQuotedContent("a@b"[1..]);
  }

  /** Between the quotes of a quoted local part an `@` may appear, so an accepted string can hold two. */
  lemma QuotedAtSign()
    ensures RFCCompliantEmailValidator().IsValid("\"a@b\"@example.com")
  {
    var s := "\"a@b\"@example.com";
    assert s[..5] == "\"a@b\"" && s[6..] == "example.com";
    QuotedLocalPart();
    ExampleComIsDomainName();
    assert s[5] == '@' && IsLocalPart(s[..5]) && IsDomain(s[6..]);
  }

  /** Unlike the simple validator, a leading dot in the local part is rejected. */
  lemma LeadingDotRejected()
    ensures !RFCCompliantEmailValidator().IsValid(".a@b.cd")
  {
    var s := ".a@b.cd";
    forall i | 0 <= i < |s| && s[i] == '@' ensures !IsLocalPart(s[..i]) {
      assert i == 2;
      assert s[..2] == ".a";
      DotAtomShape(".a");
    }
  }

  lemma NonAsciiTag()
    ensures IsTagged("x:\U{e9}")
  {
    assert IsTaggedAt("x:\U{e9}", 1);
  }

  /** After the colon of a tagged literal any character but a line terminator may appear, ASCII or not. */
  lemma TaggedLiteralAcceptsNonAscii()
    ensures RFCCompliantEmailValidator().IsValid("a@[x:\U{e9}]")
  {
    var s := "a@[x:\U{e9}]";
    assert s[..1] == "a" && s[2..] == "[" + "x:\U{e9}" + "]";
    SplitWithout("a", '.');
    NonAsciiTag();
    Bracketed("x:\U{e9}");
    assert s[1] == '@' && IsLocalPart(s[..1]) && IsDomain(s[2..]);
  }

  /**
   * The `[c]` option: changing the case of ASCII letters never changes the
   * outcome, and since every class of the pattern is closed under case, the
   * option could be dropped without changing what matches.
   */
  lemma CaseDoesNotMatter(s: string, t: string)
    requires CaseVariant(s, t)
    ensures RFCCompliantEmailValidator().IsValid(s) == RFCCompliantEmailValidator().IsValid(t)
    ensures Matches(Pattern(), s, true) == Matches(Pattern(), s, false)
  {
    IgnoreCaseMatching(Pattern(), s, t, 0, |s|);
    PatternIsCaseClosed();
    CaseInsensitive(Pattern(), s, t);
  }
}
