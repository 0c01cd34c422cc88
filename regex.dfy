/**
 * The fragment of ICU regular expressions that the two email patterns use, with
 * the meaning `NSPredicate`'s `MATCHES` gives them: the whole string must match.
 * `Span` is the reference semantics (every way of splitting the input is
 * considered); the email validators' recognisers are proved equal to it.
 */
module Regex {
  import opened Text

  datatype Regex =
    | Epsilon                      // the empty string
    | Class(p: char -> bool)       // one character satisfying p: a literal, [...] or .
    | Concat(a: Regex, b: Regex)   // ab
    | Union(a: Regex, b: Regex)    // a|b
    | Star(a: Regex)               // a*

  function Literal(c: char): Regex { Class(x => x == c) }
  function Plus(r: Regex): Regex { Concat(r, Star(r)) }        // r+
  function Optional(r: Regex): Regex { Union(r, Epsilon) }     // r?
  function AtLeastTwo(r: Regex): Regex { Concat(r, Plus(r)) }  // r{2,}

  /** `r{n}` */
  function Repeat(r: Regex, n: nat): Regex {
    if n == 0 then Epsilon else Concat(r, Repeat(r, n - 1))
  }

  /** Upper case to lower case and back, on ASCII letters only. */
  function SwapAsciiCase(c: char): (d: char)
    ensures 'a' <= c <= 'z' ==> 'A' <= d <= 'Z'
    ensures 'A' <= c <= 'Z' ==> 'a' <= d <= 'z'
    ensures !('a' <= c <= 'z' || 'A' <= c <= 'Z') ==> d == c
  {
    if 'a' <= c <= 'z' then (c as int - 32) as char
    else if 'A' <= c <= 'Z' then (c as int + 32) as char
    else c
  }

  lemma SwapAsciiCaseTwice(c: char)
    ensures SwapAsciiCase(SwapAsciiCase(c)) == c
  {
  }

  /** One character against a class; with the `[c]` option either case of an ASCII letter will do. */
  predicate ClassMatches(p: char -> bool, c: char, ignoreCase: bool) {
    p(c) || (ignoreCase && p(SwapAsciiCase(c)))
  }

  /** The characters of `s` from position `i` up to (not including) `j` match `r`. */
  ghost predicate Span(r: Regex, s: string, i: int, j: int, ignoreCase: bool)
    requires 0 <= i <= j <= |s|
    decreases r, j - i
  {
    match r
    case Epsilon => i == j
    case Class(p) => j == i + 1 && ClassMatches(p, s[i], ignoreCase)
    case Concat(a, b) =>
      exists k | i <= k <= j :: Span(a, s, i, k, ignoreCase) && Span(b, s, k, j, ignoreCase)
    case Union(a, b) => Span(a, s, i, j, ignoreCase) || Span(b, s, i, j, ignoreCase)
    case Star(a) =>
      i == j || exists k | i < k <= j :: Span(a, s, i, k, ignoreCase) && Span(r, s, k, j, ignoreCase)
  }

  /** `s` as a whole matches `r`. */
  ghost predicate Matches(r: Regex, s: string, ignoreCase: bool) {
    Span(r, s, 0, |s|, ignoreCase)
  }

  // ---------------------------------------------------------------------------
  // Case-insensitive matching
  // ---------------------------------------------------------------------------

  /** Every class of `r` treats the two cases of an ASCII letter alike. */
  ghost predicate CaseClosed(r: Regex) {
    match r
    case Epsilon => true
    case Class(p) => forall c :: p(SwapAsciiCase(c)) == p(c)
    case Concat(a, b) => CaseClosed(a) && CaseClosed(b)
    case Union(a, b) => CaseClosed(a) && CaseClosed(b)
    case Star(a) => CaseClosed(a)
  }

  /** For a pattern whose classes are closed under case, the `[c]` option changes nothing. */
  lemma {:induction false} IgnoreCaseIrrelevant(r: Regex, s: string, i: int, j: int)
    requires 0 <= i <= j <= |s| && CaseClosed(r)
    ensures Span(r, s, i, j, true) == Span(r, s, i, j, false)
    decreases r, j - i
  {
    match r
    case Epsilon =>
    case Class(p) =>
      if j == i + 1 {
        assert p(SwapAsciiCase(s[i])) == p(s[i]);
      }
    case Concat(a, b) =>
      forall k | i <= k <= j
        ensures Span(a, s, i, k, true) == Span(a, s, i, k, false)
        ensures Span(b, s, k, j, true) == Span(b, s, k, j, false)
      {
        IgnoreCaseIrrelevant(a, s, i, k);
        IgnoreCaseIrrelevant(b, s, k, j);
      }
    case Union(a, b) =>
      IgnoreCaseIrrelevant(a, s, i, j);
      IgnoreCaseIrrelevant(b, s, i, j);
    case Star(a) =>
      forall k | i < k <= j
        ensures Span(a, s, i, k, true) == Span(a, s, i, k, false)
        ensures Span(r, s, k, j, true) == Span(r, s, k, j, false)
      {
        IgnoreCaseIrrelevant(a, s, i, k);
        IgnoreCaseIrrelevant(r, s, k, j);
      }
  }

  /** A class that holds of every ASCII letter, or of none, is closed under case. */
  lemma ClosedClass(p: char -> bool)
    requires (forall c | 'a' <= c <= 'z' || 'A' <= c <= 'Z' :: p(c)) || (forall c | 'a' <= c <= 'z' || 'A' <= c <= 'Z' :: !p(c))
    ensures CaseClosed(Class(p))
  {
    forall c ensures p(SwapAsciiCase(c)) == p(c) {
    }
  }

  lemma StarCaseClosed(r: Regex)
    requires CaseClosed(r)
    ensures CaseClosed(Star(r)) && CaseClosed(Plus(r)) && CaseClosed(AtLeastTwo(r)) && CaseClosed(Optional(r))
  {
  }

  lemma {:induction false} RepeatCaseClosed(r: Regex, n: nat)
    requires CaseClosed(r)
    ensures CaseClosed(Repeat(r, n))
  {
    if n > 0 {
      RepeatCaseClosed(r, n - 1);
    }
  }

  /** A literal other than an ASCII letter is closed under case. */
  lemma LiteralCaseClosed(c: char)
    requires !IsAsciiLetter(c)
    ensures CaseClosed(Literal(c))
  {
    forall x ensures (SwapAsciiCase(x) == c) == (x == c) {
    }
  }

  /** `t` is `s` with the case of some ASCII letters changed. */
  ghost predicate CaseVariant(s: string, t: string) {
    |s| == |t| && forall m | 0 <= m < |s| :: t[m] == s[m] || t[m] == SwapAsciiCase(s[m])
  }

  /** With the `[c]` option, changing the case of ASCII letters never changes the outcome. */
  lemma {:induction false} IgnoreCaseMatching(r: Regex, s: string, t: string, i: int, j: int)
    requires 0 <= i <= j <= |s| && CaseVariant(s, t)
    ensures Span(r, s, i, j, true) == Span(r, t, i, j, true)
    decreases r, j - i
  {
    match r
    case Epsilon =>
    case Class(p) =>
      if j == i + 1 {
        SwapAsciiCaseTwice(s[i]);
      }
    case Concat(a, b) =>
      forall k | i <= k <= j
        ensures Span(a, s, i, k, true) == Span(a, t, i, k, true)
        ensures Span(b, s, k, j, true) == Span(b, t, k, j, true)
      {
        IgnoreCaseMatching(a, s, t, i, k);
        IgnoreCaseMatching(b, s, t, k, j);
      }
    case Union(a, b) =>
      IgnoreCaseMatching(a, s, t, i, j);
      IgnoreCaseMatching(b, s, t, i, j);
    case Star(a) =>
      forall k | i < k <= j
        ensures Span(a, s, i, k, true) == Span(a, t, i, k, true)
        ensures Span(r, s, k, j, true) == Span(r, t, k, j, true)
      {
        IgnoreCaseMatching(a, s, t, i, k);
        IgnoreCaseMatching(r, s, t, k, j);
      }
  }

  /** Whole-string form: with a case-closed pattern, the `[c]` option can be dropped and case never matters. */
  lemma CaseInsensitive(r: Regex, s: string, t: string)
    requires CaseClosed(r) && CaseVariant(s, t)
    ensures Matches(r, s, true) == Matches(r, s, false)
    ensures Matches(r, s, false) == Matches(r, t, false)
  {
    IgnoreCaseIrrelevant(r, s, 0, |s|);
    IgnoreCaseIrrelevant(r, t, 0, |t|);
    IgnoreCaseMatching(r, s, t, 0, |s|);
  }

  // ---------------------------------------------------------------------------
  // Sub-ranges
  // ---------------------------------------------------------------------------

  /** The concatenation step of `SpanTransfer`, given the result for every split point. */
  lemma TransferConcat(a: Regex, b: Regex, s: string, i: int, j: int, t: string, d: int)
    requires 0 <= i <= j <= |s| && 0 <= i + d && j + d <= |t|
    requires forall k | i <= k <= j :: Span(a, s, i, k, false) == Span(a, t, i + d, k + d, false)
    requires forall k | i <= k <= j :: Span(b, s, k, j, false) == Span(b, t, k + d, j + d, false)
    ensures Span(Concat(a, b), s, i, j, false) == Span(Concat(a, b), t, i + d, j + d, false)
  {
    if Span(Concat(a, b), s, i, j, false) {
      assert Span(Concat(a, b), s, i, j, false);
      var k :| i <= k <= j && Span(a, s, i, k, false) && Span(b, s, k, j, false);
      assert Span(a, t, i + d, k + d, false) && Span(b, t, k + d, j + d, false);
    }
    if Span(Concat(a, b), t, i + d, j + d, false) {
      assert Span(Concat(a, b), t, i + d, j + d, false);
      var k' :| i + d <= k' <= j + d && Span(a, t, i + d, k', false) && Span(b, t, k', j + d, false);
      var k := k' - d;
      assert Span(a, s, i, k, false) && Span(b, s, k, j, false);
    }
  }

  /** The repetition step of `SpanTransfer`, given the result for every first iteration. */
  lemma TransferStar(a: Regex, s: string, i: int, j: int, t: string, d: int)
    requires 0 <= i <= j <= |s| && 0 <= i + d && j + d <= |t|
    requires forall k | i < k <= j :: Span(a, s, i, k, false) == Span(a, t, i + d, k + d, false)
    requires forall k | i < k <= j :: Span(Star(a), s, k, j, false) == Span(Star(a), t, k + d, j + d, false)
    ensures Span(Star(a), s, i, j, false) == Span(Star(a), t, i + d, j + d, false)
  {
    if i < j && Span(Star(a), s, i, j, false) {
      assert Span(Star(a), s, i, j, false);
      var k :| i < k <= j && Span(a, s, i, k, false) && Span(Star(a), s, k, j, false);
      assert Span(a, t, i + d, k + d, false) && Span(Star(a), t, k + d, j + d, false);
    }
    if i < j && Span(Star(a), t, i + d, j + d, false) {
      assert Span(Star(a), t, i + d, j + d, false);
      var k' :| i + d < k' <= j + d && Span(a, t, i + d, k', false) && Span(Star(a), t, k', j + d, false);
      var k := k' - d;
      assert Span(a, s, i, k, false) && Span(Star(a), s, k, j, false);
    }
  }

  /** Whether a range matches depends only on the characters in it: shifting it by `d` elsewhere changes nothing. */
  lemma {:induction false} SpanTransfer(r: Regex, s: string, i: int, j: int, t: string, d: int)
    requires 0 <= i <= j <= |s| && 0 <= i + d && j + d <= |t|
    requires forall m | i <= m < j :: s[m] == t[m + d]
    ensures Span(r, s, i, j, false) == Span(r, t, i + d, j + d, false)
    decreases r, j - i
  {
    match r
    case Epsilon =>
    case Class(p) =>
    case Union(a, b) =>
      SpanTransfer(a, s, i, j, t, d);
      SpanTransfer(b, s, i, j, t, d);
    case Concat(a, b) =>
      forall k | i <= k <= j
        ensures Span(a, s, i, k, false) == Span(a, t, i + d, k + d, false)
        ensures Span(b, s, k, j, false) == Span(b, t, k + d, j + d, false)
      {
        SpanTransfer(a, s, i, k, t, d);
        SpanTransfer(b, s, k, j, t, d);
      }
      TransferConcat(a, b, s, i, j, t, d);
    case Star(a) =>
      forall k | i < k <= j
        ensures Span(a, s, i, k, false) == Span(a, t, i + d, k + d, false)
        ensures Span(Star(a), s, k, j, false) == Span(Star(a), t, k + d, j + d, false)
      {
        SpanTransfer(a, s, i, k, t, d);
        SpanTransfer(Star(a), s, k, j, t, d);
      }
      TransferStar(a, s, i, j, t, d);
  }

  /** A range matches exactly when the substring it spans matches as a whole. */
  lemma MatchesSlice(r: Regex, s: string, i: int, j: int)
    requires 0 <= i <= j <= |s|
    ensures Matches(r, s[i..j], false) == Span(r, s, i, j, false)
  {
    SpanTransfer(r, s, i, j, s[i..j], -i);
  }

  // ---------------------------------------------------------------------------
  // Building blocks
  // ---------------------------------------------------------------------------

  lemma ConcatAt(a: Regex, b: Regex, s: string, i: int, k: int, j: int)
    requires 0 <= i <= k <= j <= |s| && Span(a, s, i, k, false) && Span(b, s, k, j, false)
    ensures Span(Concat(a, b), s, i, j, false)
  {
  }

  /** `[p]b`: the first character is in the class and `b` matches the rest. */
  lemma ClassThen(p: char -> bool, b: Regex, s: string, i: int, j: int)
    requires 0 <= i <= j <= |s|
    ensures Span(Concat(Class(p), b), s, i, j, false) <==> i < j && p(s[i]) && Span(b, s, i + 1, j, false)
  {
    if Span(Concat(Class(p), b), s, i, j, false) {
      assert Span(Concat(Class(p), b), s, i, j, false);
      var k :| i <= k <= j && Span(Class(p), s, i, k, false) && Span(b, s, k, j, false);
    }
    if i < j && p(s[i]) && Span(b, s, i + 1, j, false) {
      ConcatAt(Class(p), b, s, i, i + 1, j);
    }
  }

  /** `a[p]`: the last character is in the class and `a` matches the rest. */
  lemma ThenClass(a: Regex, p: char -> bool, s: string, i: int, j: int)
    requires 0 <= i <= j <= |s|
    ensures Span(Concat(a, Class(p)), s, i, j, false) <==> i < j && p(s[j - 1]) && Span(a, s, i, j - 1, false)
  {
    if Span(Concat(a, Class(p)), s, i, j, false) {
      assert Span(Concat(a, Class(p)), s, i, j, false);
      var k :| i <= k <= j && Span(a, s, i, k, false) && Span(Class(p), s, k, j, false);
    }
    if i < j && p(s[j - 1]) && Span(a, s, i, j - 1, false) {
      ConcatAt(a, Class(p), s, i, j - 1, j);
    }
  }

  lemma LiteralThen(c: char, b: Regex, s: string, i: int, j: int)
    requires 0 <= i <= j <= |s|
    ensures Span(Concat(Literal(c), b), s, i, j, false) <==> i < j && s[i] == c && Span(b, s, i + 1, j, false)
  {
    ClassThen(x => x == c, b, s, i, j);
  }

  lemma ThenLiteral(a: Regex, c: char, s: string, i: int, j: int)
    requires 0 <= i <= j <= |s|
    ensures Span(Concat(a, Literal(c)), s, i, j, false) <==> i < j && s[j - 1] == c && Span(a, s, i, j - 1, false)
  {
    ThenClass(a, x => x == c, s, i, j);
  }

  /** `[p]*` matches a range exactly when every character in it is in the class. */
  lemma {:induction false} StarOfClass(p: char -> bool, s: string, i: int, j: int)
    requires 0 <= i <= j <= |s|
    ensures Span(Star(Class(p)), s, i, j, false) <==> forall m | i <= m < j :: p(s[m])
    decreases j - i
  {
    if i < j {
      StarOfClass(p, s, i + 1, j);
      if Span(Star(Class(p)), s, i, j, false) {
        assert Span(Star(Class(p)), s, i, j, false);
        var k :| i < k <= j && Span(Class(p), s, i, k, false) && Span(Star(Class(p)), s, k, j, false);
      }
      if forall m | i <= m < j :: p(s[m]) {
        assert Span(Class(p), s, i, i + 1, false);
        assert Span(Star(Class(p)), s, i + 1, j, false);
      }
    }
  }

  /** `[p]+`: one or more characters, all in the class. */
  lemma PlusOfClass(p: char -> bool, s: string, i: int, j: int)
    requires 0 <= i <= j <= |s|
    ensures Span(Plus(Class(p)), s, i, j, false) <==> i < j && forall m | i <= m < j :: p(s[m])
  {
    ClassThen(p, Star(Class(p)), s, i, j);
    if i < j {
      StarOfClass(p, s, i + 1, j);
    }
  }

  /** `[p]{2,}`: two or more characters, all in the class. */
  lemma AtLeastTwoOfClass(p: char -> bool, s: string, i: int, j: int)
    requires 0 <= i <= j <= |s|
    ensures Span(AtLeastTwo(Class(p)), s, i, j, false) <==> i + 2 <= j && forall m | i <= m < j :: p(s[m])
  {
    ClassThen(p, Plus(Class(p)), s, i, j);
    if i < j {
      PlusOfClass(p, s, i + 1, j);
    }
  }

  /** `x?b`: either `b` alone, or `x` then `b`. */
  lemma OptionalThen(x: Regex, b: Regex, s: string, i: int, j: int)
    requires 0 <= i <= j <= |s|
    ensures Span(Concat(Optional(x), b), s, i, j, false) <==> Span(b, s, i, j, false) || Span(Concat(x, b), s, i, j, false)
  {
    var o := Union(x, Epsilon);
    assert Optional(x) == o;
    if Span(Concat(o, b), s, i, j, false) {
      assert Span(Concat(o, b), s, i, j, false);
      var k :| i <= k <= j && Span(o, s, i, k, false) && Span(b, s, k, j, false);
      assert Span(x, s, i, k, false) || Span(Epsilon, s, i, k, false);
      if Span(x, s, i, k, false) {
        ConcatAt(x, b, s, i, k, j);
      }
    }
    if Span(b, s, i, j, false) {
      assert Span(o, s, i, i, false);
      ConcatAt(o, b, s, i, i, j);
    }
    if Span(Concat(x, b), s, i, j, false) {
      assert Span(Concat(x, b), s, i, j, false);
      var k :| i <= k <= j && Span(x, s, i, k, false) && Span(b, s, k, j, false);
      assert Span(o, s, i, k, false);
      ConcatAt(o, b, s, i, k, j);
    }
  }

  /** `a c b` for a literal `c`: some occurrence of `c` has `a` before it and `b` after it. */
  lemma SplitAtLiteral(a: Regex, c: char, b: Regex, s: string, i: int, j: int)
    requires 0 <= i <= j <= |s|
    ensures Span(Concat(a, Concat(Literal(c), b)), s, i, j, false) <==>
            exists k | i <= k < j :: s[k] == c && Span(a, s, i, k, false) && Span(b, s, k + 1, j, false)
  {
    forall k | i <= k <= j
      ensures Span(Concat(Literal(c), b), s, k, j, false) <==> k < j && s[k] == c && Span(b, s, k + 1, j, false)
    {
      LiteralThen(c, b, s, k, j);
    }
    if Span(Concat(a, Concat(Literal(c), b)), s, i, j, false) {
      assert Span(Concat(a, Concat(Literal(c), b)), s, i, j, false);
      var k :| i <= k <= j && Span(a, s, i, k, false) && Span(Concat(Literal(c), b), s, k, j, false);
      assert s[k] == c && Span(b, s, k + 1, j, false);
    }
    if exists k | i <= k < j :: s[k] == c && Span(a, s, i, k, false) && Span(b, s, k + 1, j, false) {
      var k :| i <= k < j && s[k] == c && Span(a, s, i, k, false) && Span(b, s, k + 1, j, false);
      ConcatAt(a, Concat(Literal(c), b), s, i, k, j);
    }
  }

  lemma ConcatAssocLeft(a: Regex, b: Regex, d: Regex, s: string, i: int, j: int)
    requires 0 <= i <= j <= |s| && Span(Concat(Concat(a, b), d), s, i, j, false)
    ensures Span(Concat(a, Concat(b, d)), s, i, j, false)
  {
    var k :| i <= k <= j && Span(Concat(a, b), s, i, k, false) && Span(d, s, k, j, false);
    assert Span(Concat(a, b), s, i, k, false);
    var m :| i <= m <= k && Span(a, s, i, m, false) && Span(b, s, m, k, false);
    ConcatAt(b, d, s, m, k, j);
    ConcatAt(a, Concat(b, d), s, i, m, j);
  }

  lemma ConcatAssocRight(a: Regex, b: Regex, d: Regex, s: string, i: int, j: int)
    requires 0 <= i <= j <= |s| && Span(Concat(a, Concat(b, d)), s, i, j, false)
    ensures Span(Concat(Concat(a, b), d), s, i, j, false)
  {
    var m :| i <= m <= j && Span(a, s, i, m, false) && Span(Concat(b, d), s, m, j, false);
    assert Span(Concat(b, d), s, m, j, false);
    var k :| m <= k <= j && Span(b, s, m, k, false) && Span(d, s, k, j, false);
    ConcatAt(a, b, s, i, m, k);
    ConcatAt(Concat(a, b), d, s, i, k, j);
  }

  /** Concatenation is associative. */
  lemma ConcatAssoc(a: Regex, b: Regex, d: Regex, s: string, i: int, j: int)
    requires 0 <= i <= j <= |s|
    ensures Span(Concat(Concat(a, b), d), s, i, j, false) == Span(Concat(a, Concat(b, d)), s, i, j, false)
  {
    if Span(Concat(Concat(a, b), d), s, i, j, false) {
      ConcatAssocLeft(a, b, d, s, i, j);
    }
    if Span(Concat(a, Concat(b, d)), s, i, j, false) {
      ConcatAssocRight(a, b, d, s, i, j);
    }
  }

  /** Replacing the right operand by one that matches the same suffixes changes nothing. */
  lemma ConcatRight(a: Regex, b: Regex, b': Regex, s: string, i: int, j: int)
    requires 0 <= i <= j <= |s|
    requires forall k | i <= k <= j :: Span(b, s, k, j, false) == Span(b', s, k, j, false)
    ensures Span(Concat(a, b), s, i, j, false) == Span(Concat(a, b'), s, i, j, false)
  {
    if Span(Concat(a, b), s, i, j, false) {
      assert Span(Concat(a, b), s, i, j, false);
      var k :| i <= k <= j && Span(a, s, i, k, false) && Span(b, s, k, j, false);
      ConcatAt(a, b', s, i, k, j);
    }
    if Span(Concat(a, b'), s, i, j, false) {
      assert Span(Concat(a, b'), s, i, j, false);
      var k :| i <= k <= j && Span(a, s, i, k, false) && Span(b', s, k, j, false);
      ConcatAt(a, b, s, i, k, j);
    }
  }

  /** `y a*`: `y` alone, or `y`, one `a` and `a*`. */
  lemma ThenStar(y: Regex, a: Regex, s: string, i: int, j: int)
    requires 0 <= i <= j <= |s|
    ensures Span(Concat(y, Star(a)), s, i, j, false) <==>
            Span(y, s, i, j, false) || Span(Concat(y, Concat(a, Star(a))), s, i, j, false)
  {
    forall k | i <= k <= j
      ensures Span(Star(a), s, k, j, false) <==> k == j || Span(Concat(a, Star(a)), s, k, j, false)
    {
      StarUnfold(a, s, k, j);
    }
    if Span(Concat(y, Star(a)), s, i, j, false) {
      assert Span(Concat(y, Star(a)), s, i, j, false);
      var k :| i <= k <= j && Span(y, s, i, k, false) && Span(Star(a), s, k, j, false);
      if k < j {
        ConcatAt(y, Concat(a, Star(a)), s, i, k, j);
      }
    }
    if Span(y, s, i, j, false) {
      ConcatAt(y, Star(a), s, i, j, j);
    }
    if Span(Concat(y, Concat(a, Star(a))), s, i, j, false) {
      assert Span(Concat(y, Concat(a, Star(a))), s, i, j, false);
      var k :| i <= k <= j && Span(y, s, i, k, false) && Span(Concat(a, Star(a)), s, k, j, false);
      ConcatAt(y, Star(a), s, i, k, j);
    }
  }

  /** `a*` matches the empty range, or `a` then `a*`. */
  lemma StarUnfold(a: Regex, s: string, i: int, j: int)
    requires 0 <= i <= j <= |s|
    ensures Span(Star(a), s, i, j, false) <==> i == j || Span(Concat(a, Star(a)), s, i, j, false)
  {
    if i < j && Span(Star(a), s, i, j, false) {
      assert Span(Star(a), s, i, j, false);
      var k :| i < k <= j && Span(a, s, i, k, false) && Span(Star(a), s, k, j, false);
      ConcatAt(a, Star(a), s, i, k, j);
    }
    if Span(Concat(a, Star(a)), s, i, j, false) {
      assert Span(Concat(a, Star(a)), s, i, j, false);
      var k :| i <= k <= j && Span(a, s, i, k, false) && Span(Star(a), s, k, j, false);
      if k == i {
        assert Span(Star(a), s, i, j, false);
      } else {
        assert Span(Star(a), s, i, j, false);
      }
    }
  }

  /** `a* b`: `b` alone, or `a` then `a* b`. */
  lemma StarThen(a: Regex, b: Regex, s: string, i: int, j: int)
    requires 0 <= i <= j <= |s|
    ensures Span(Concat(Star(a), b), s, i, j, false) <==>
            Span(b, s, i, j, false) || Span(Concat(a, Concat(Star(a), b)), s, i, j, false)
  {
    forall k | i <= k <= j
      ensures Span(Star(a), s, i, k, false) <==> i == k || Span(Concat(a, Star(a)), s, i, k, false)
    {
      StarUnfold(a, s, i, k);
    }
    if Span(Concat(Star(a), b), s, i, j, false) {
      assert Span(Concat(Star(a), b), s, i, j, false);
      var k :| i <= k <= j && Span(Star(a), s, i, k, false) && Span(b, s, k, j, false);
      if k > i {
        ConcatAt(Concat(a, Star(a)), b, s, i, k, j);
        ConcatAssocLeft(a, Star(a), b, s, i, j);
      }
    }
    if Span(b, s, i, j, false) {
      ConcatAt(Star(a), b, s, i, i, j);
    }
    if Span(Concat(a, Concat(Star(a), b)), s, i, j, false) {
      ConcatAssocRight(a, Star(a), b, s, i, j);
      assert Span(Concat(Concat(a, Star(a)), b), s, i, j, false);
      var k :| i <= k <= j && Span(Concat(a, Star(a)), s, i, k, false) && Span(b, s, k, j, false);
      ConcatAt(Star(a), b, s, i, k, j);
    }
  }

  lemma ThenEpsilon(y: Regex, s: string, i: int, j: int)
    requires 0 <= i <= j <= |s|
    ensures Span(Concat(y, Epsilon), s, i, j, false) <==> Span(y, s, i, j, false)
  {
    if Span(Concat(y, Epsilon), s, i, j, false) {
      assert Span(Concat(y, Epsilon), s, i, j, false);
      var k :| i <= k <= j && Span(y, s, i, k, false) && Span(Epsilon, s, k, j, false);
    }
    if Span(y, s, i, j, false) {
      ConcatAt(y, Epsilon, s, i, j, j);
    }
  }

  // ---------------------------------------------------------------------------
  // Pieces separated by a literal
  // ---------------------------------------------------------------------------

  /** Nothing `y` matches contains `c`. */
  ghost predicate Avoids(y: Regex, c: char) {
    forall s: string, i: int, j: int, m: int | 0 <= i <= m < j <= |s| && Span(y, s, i, j, false) :: s[m] != c
  }

  lemma PlusOfClassAvoids(p: char -> bool, c: char)
    requires !p(c)
    ensures Avoids(Plus(Class(p)), c)
  {
    forall s: string, i: int, j: int, m: int | 0 <= i <= m < j <= |s| && Span(Plus(Class(p)), s, i, j, false)
      ensures s[m] != c
    {
      PlusOfClass(p, s, i, j);
    }
  }

  lemma AtLeastTwoOfClassAvoids(p: char -> bool, c: char)
    requires !p(c)
    ensures Avoids(AtLeastTwo(Class(p)), c)
  {
    forall s: string, i: int, j: int, m: int | 0 <= i <= m < j <= |s| && Span(AtLeastTwo(Class(p)), s, i, j, false)
      ensures s[m] != c
    {
      AtLeastTwoOfClass(p, s, i, j);
    }
  }

  ghost predicate AllMatch(pieces: seq<string>, y: Regex) {
    forall k | 0 <= k < |pieces| :: Matches(y, pieces[k], false)
  }

  /** Every piece but the last matches `y`, and the last matches `z`. */
  ghost predicate PiecesThen(pieces: seq<string>, y: Regex, z: Regex) {
    && |pieces| >= 1
    && (forall k | 0 <= k < |pieces| - 1 :: Matches(y, pieces[k], false))
    && Matches(z, pieces[|pieces| - 1], false)
  }

  lemma AllMatchCons(p: string, rest: seq<string>, y: Regex)
    ensures AllMatch([p] + rest, y) <==> Matches(y, p, false) && AllMatch(rest, y)
  {
    var all := [p] + rest;
    assert all[0] == p;
    assert forall k | 0 <= k < |rest| :: all[k + 1] == rest[k];
    if Matches(y, p, false) && AllMatch(rest, y) {
      forall k | 0 <= k < |all| ensures Matches(y, all[k], false) {
        if k > 0 {
          assert all[k] == rest[k - 1];
        }
      }
    }
  }

  lemma PiecesThenCons(p: string, rest: seq<string>, y: Regex, z: Regex)
    requires |rest| >= 1
    ensures PiecesThen([p] + rest, y, z) <==> Matches(y, p, false) && PiecesThen(rest, y, z)
  {
    var all := [p] + rest;
    assert all[0] == p && all[|all| - 1] == rest[|rest| - 1];
    assert forall k | 0 <= k < |rest| :: all[k + 1] == rest[k];
    if Matches(y, p, false) && PiecesThen(rest, y, z) {
      forall k | 0 <= k < |all| - 1 ensures Matches(y, all[k], false) {
        if k > 0 {
          assert all[k] == rest[k - 1];
        }
      }
    }
  }

  /** When `y` never matches a `c`, `y c w` can only split at the first `c`. */
  lemma FirstSeparator(y: Regex, c: char, w: Regex, s: string, i: int, j: int)
    requires 0 <= i <= j <= |s| && Avoids(y, c)
    ensures Span(Concat(y, Concat(Literal(c), w)), s, i, j, false) <==>
            var f := FirstIndex(s, c, i, j);
            f < j && Span(y, s, i, f, false) && Span(w, s, f + 1, j, false)
  {
    var f := FirstIndex(s, c, i, j);
    SplitAtLiteral(y, c, w, s, i, j);
    if Span(Concat(y, Concat(Literal(c), w)), s, i, j, false) {
      var k :| i <= k < j && s[k] == c && Span(y, s, i, k, false) && Span(w, s, k + 1, j, false);
      assert f == k;
    }
  }

  /** A range with a `c` in it does not match `y`. */
  lemma AvoidsRange(y: Regex, c: char, s: string, i: int, j: int)
    requires 0 <= i <= j <= |s| && Avoids(y, c) && FirstIndex(s, c, i, j) < j
    ensures !Span(y, s, i, j, false)
  {
    var f := FirstIndex(s, c, i, j);
    assert s[f] == c;
  }

  /** The pieces of a range: the piece before the first `c`, then those after it. */
  lemma AllMatchRange(y: Regex, c: char, s: string, i: int, j: int)
    requires 0 <= i <= j <= |s|
    ensures var f := FirstIndex(s, c, i, j);
            f == j ==> |Split(s[i..j], c)| == 1 && (AllMatch(Split(s[i..j], c), y) <==> Span(y, s, i, j, false))
    ensures var f := FirstIndex(s, c, i, j);
            f < j ==> |Split(s[i..j], c)| == 1 + |Split(s[f + 1..j], c)| &&
                      (AllMatch(Split(s[i..j], c), y) <==> Span(y, s, i, f, false) && AllMatch(Split(s[f + 1..j], c), y))
  {
    SplitRange(s, c, i, j);
    var f := FirstIndex(s, c, i, j);
    if f == j {
      MatchesSlice(y, s, i, j);
      assert [s[i..j]][0] == s[i..j];
    } else {
      MatchesSlice(y, s, i, f);
      AllMatchCons(s[i..f], Split(s[f + 1..j], c), y);
    }
  }

  lemma PiecesThenRange(y: Regex, c: char, z: Regex, s: string, i: int, j: int)
    requires 0 <= i <= j <= |s|
    ensures var f := FirstIndex(s, c, i, j);
            f == j ==> |Split(s[i..j], c)| == 1 && (PiecesThen(Split(s[i..j], c), y, z) <==> Span(z, s, i, j, false))
    ensures var f := FirstIndex(s, c, i, j);
            f < j ==> |Split(s[i..j], c)| == 1 + |Split(s[f + 1..j], c)| &&
                      (PiecesThen(Split(s[i..j], c), y, z) <==> Span(y, s, i, f, false) && PiecesThen(Split(s[f + 1..j], c), y, z))
  {
    SplitRange(s, c, i, j);
    var f := FirstIndex(s, c, i, j);
    if f == j {
      MatchesSlice(z, s, i, j);
      assert [s[i..j]][0] == s[i..j];
    } else {
      MatchesSlice(y, s, i, f);
      PiecesThenCons(s[i..f], Split(s[f + 1..j], c), y, z);
    }
  }

  /** `y(?:cy)*` is `y` alone, or splits at the first `c` into `y` and `y(?:cy)*`. */
  lemma ListFirst(y: Regex, c: char, s: string, i: int, j: int)
    requires 0 <= i <= j <= |s| && Avoids(y, c)
    ensures Span(Concat(y, Star(Concat(Literal(c), y))), s, i, j, false) <==>
            var f := FirstIndex(s, c, i, j);
            Span(y, s, i, j, false) ||
            (f < j && Span(y, s, i, f, false) && Span(Concat(y, Star(Concat(Literal(c), y))), s, f + 1, j, false))
  {
    var x := Concat(Literal(c), y);
    var l := Concat(y, Star(x));
    ThenStar(y, x, s, i, j);
    forall k | i <= k <= j
      ensures Span(Concat(x, Star(x)), s, k, j, false) == Span(Concat(Literal(c), l), s, k, j, false)
    {
      ConcatAssoc(Literal(c), y, Star(x), s, k, j);
    }
    ConcatRight(y, Concat(x, Star(x)), Concat(Literal(c), l), s, i, j);
    FirstSeparator(y, c, l, s, i, j);
  }

  /** `y(?:cy)*` matches a range exactly when every piece of it between `c`s matches `y`. */
  lemma {:induction false} SeparatedList(y: Regex, c: char, s: string, i: int, j: int)
    requires 0 <= i <= j <= |s| && Avoids(y, c)
    ensures Span(Concat(y, Star(Concat(Literal(c), y))), s, i, j, false) <==> AllMatch(Split(s[i..j], c), y)
    decreases j - i
  {
    ListFirst(y, c, s, i, j);
    AllMatchRange(y, c, s, i, j);
    var f := FirstIndex(s, c, i, j);
    if f < j {
      AvoidsRange(y, c, s, i, j);
      SeparatedList(y, c, s, f + 1, j);
    }
  }

  /** `y(?:cy){n}` with `n > 0` splits at the first `c` into `y` and `y(?:cy){n - 1}`. */
  lemma RepeatFirst(y: Regex, c: char, n: nat, s: string, i: int, j: int)
    requires 0 <= i <= j <= |s| && Avoids(y, c) && n > 0
    ensures Span(Concat(y, Repeat(Concat(Literal(c), y), n)), s, i, j, false) <==>
            var f := FirstIndex(s, c, i, j);
            f < j && Span(y, s, i, f, false) && Span(Concat(y, Repeat(Concat(Literal(c), y), n - 1)), s, f + 1, j, false)
  {
    var x := Concat(Literal(c), y);
    var rest := Concat(y, Repeat(x, n - 1));
    forall k | i <= k <= j
      ensures Span(Concat(x, Repeat(x, n - 1)), s, k, j, false) == Span(Concat(Literal(c), rest), s, k, j, false)
    {
      ConcatAssoc(Literal(c), y, Repeat(x, n - 1), s, k, j);
    }
    ConcatRight(y, Repeat(x, n), Concat(Literal(c), rest), s, i, j);
    FirstSeparator(y, c, rest, s, i, j);
  }

  /** `y(?:cy){n}` matches a range exactly when it has `n + 1` pieces between `c`s, each matching `y`. */
  lemma {:induction false} SeparatedCount(y: Regex, c: char, n: nat, s: string, i: int, j: int)
    requires 0 <= i <= j <= |s| && Avoids(y, c)
    ensures Span(Concat(y, Repeat(Concat(Literal(c), y), n)), s, i, j, false) <==>
            |Split(s[i..j], c)| == n + 1 && AllMatch(Split(s[i..j], c), y)
    decreases n
  {
    AllMatchRange(y, c, s, i, j);
    var f := FirstIndex(s, c, i, j);
    if n == 0 {
      ThenEpsilon(y, s, i, j);
      if f < j {
        AvoidsRange(y, c, s, i, j);
      }
    } else {
      RepeatFirst(y, c, n, s, i, j);
      if f < j {
        SeparatedCount(y, c, n - 1, s, f + 1, j);
      }
    }
  }

  /** `(?:yc)*z` is `z` alone, or splits at the first `c` into `y` and `(?:yc)*z`. */
  lemma StarThenFirst(y: Regex, c: char, z: Regex, s: string, i: int, j: int)
    requires 0 <= i <= j <= |s| && Avoids(y, c)
    ensures Span(Concat(Star(Concat(y, Literal(c))), z), s, i, j, false) <==>
            var f := FirstIndex(s, c, i, j);
            Span(z, s, i, j, false) ||
            (f < j && Span(y, s, i, f, false) && Span(Concat(Star(Concat(y, Literal(c))), z), s, f + 1, j, false))
  {
    var x := Concat(y, Literal(c));
    var m := Concat(Star(x), z);
    StarThen(x, z, s, i, j);
    ConcatAssoc(y, Literal(c), m, s, i, j);
    FirstSeparator(y, c, m, s, i, j);
  }

  /** `(?:yc)*z` matches a range exactly when its pieces between `c`s match `y`, except the last, which matches `z`. */
  lemma {:induction false} PiecesThenLast(y: Regex, c: char, z: Regex, s: string, i: int, j: int)
    requires 0 <= i <= j <= |s| && Avoids(y, c) && Avoids(z, c)
    ensures Span(Concat(Star(Concat(y, Literal(c))), z), s, i, j, false) <==> PiecesThen(Split(s[i..j], c), y, z)
    decreases j - i
  {
    StarThenFirst(y, c, z, s, i, j);
    PiecesThenRange(y, c, z, s, i, j);
    var f := FirstIndex(s, c, i, j);
    if f < j {
      AvoidsRange(z, c, s, i, j);
      PiecesThenLast(y, c, z, s, f + 1, j);
    }
  }

  /** `(?:yc)+z` splits at the first `c`: `y` before it, `(?:yc)*z` after it. */
  lemma PlusThenFirst(y: Regex, c: char, z: Regex, s: string, i: int, j: int)
    requires 0 <= i <= j <= |s| && Avoids(y, c)
    ensures Span(Concat(Plus(Concat(y, Literal(c))), z), s, i, j, false) <==>
            var f := FirstIndex(s, c, i, j);
            f < j && Span(y, s, i, f, false) && Span(Concat(Star(Concat(y, Literal(c))), z), s, f + 1, j, false)
  {
    var x := Concat(y, Literal(c));
    assert Plus(x) == Concat(x, Star(x));
    ConcatAssoc(x, Star(x), z, s, i, j);
    ConcatAssoc(y, Literal(c), Concat(Star(x), z), s, i, j);
    FirstSeparator(y, c, Concat(Star(x), z), s, i, j);
  }

  /** `(?:yc)+z`: as `PiecesThenLast`, with at least two pieces. */
  lemma PiecesPlusThenLast(y: Regex, c: char, z: Regex, s: string, i: int, j: int)
    requires 0 <= i <= j <= |s| && Avoids(y, c) && Avoids(z, c)
    ensures Span(Concat(Plus(Concat(y, Literal(c))), z), s, i, j, false) <==>
            |Split(s[i..j], c)| >= 2 && PiecesThen(Split(s[i..j], c), y, z)
  {
    PlusThenFirst(y, c, z, s, i, j);
    PiecesThenRange(y, c, z, s, i, j);
    var f := FirstIndex(s, c, i, j);
    if f < j {
      PiecesThenLast(y, c, z, s, f + 1, j);
    }
  }
}
