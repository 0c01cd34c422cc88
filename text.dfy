/**
 * Character-level facilities shared by the validators: ASCII character classes,
 * Swift's `allSatisfy` and `filter`, decimal digit strings, and the Unicode
 * character properties (`Character.isNumber`, `Character.isLetter`) that the
 * platform supplies and the model takes as parameters.
 */
module Text {

  predicate IsAsciiDigit(c: char) { '0' <= c <= '9' }
  predicate IsAsciiUpper(c: char) { 'A' <= c <= 'Z' }
  predicate IsAsciiLower(c: char) { 'a' <= c <= 'z' }
  predicate IsAsciiLetter(c: char) { IsAsciiUpper(c) || IsAsciiLower(c) }
  predicate IsAsciiAlphanumeric(c: char) { IsAsciiLetter(c) || IsAsciiDigit(c) }
  predicate IsAscii(c: char) { c as int < 128 }

  /** The Unicode properties of a character, as the platform classifies them. */
  datatype CharacterProperties = CharacterProperties(isNumber: char -> bool, isLetter: char -> bool)

  /**
   * What Unicode says about the ASCII range: among ASCII characters exactly the
   * ten digits are numbers and exactly the 52 letters are letters. This is the
   * only thing the model assumes about the platform's classification.
   */
  ghost predicate AgreesWithAscii(properties: CharacterProperties) {
    && (forall c: char {:trigger properties.isNumber(c)} :: IsAscii(c) ==> (properties.isNumber(c) <==> IsAsciiDigit(c)))
    && (forall c: char {:trigger properties.isLetter(c)} :: IsAscii(c) ==> (properties.isLetter(c) <==> IsAsciiLetter(c)))
  }

  /** Swift's `allSatisfy`: every character of `s` satisfies `p`. */
  predicate AllSatisfy(s: string, p: char -> bool) {
    forall i | 0 <= i < |s| :: p(s[i])
  }

  /** Swift's `filter`: the characters of `s` that satisfy `p`, in their order. */
  function Filter(s: string, p: char -> bool): (r: string)
    ensures |r| <= |s|
    ensures AllSatisfy(r, p)
  {
    if s == [] then [] else (if p(s[0]) then [s[0]] else []) + Filter(s[1..], p)
  }

  /** The positions of `s` that hold a character satisfying `p`. */
  ghost function Positions(s: string, p: char -> bool): set<int> {
    set i | 0 <= i < |s| && p(s[i])
  }

  lemma {:induction false} FilterAppend(s: string, t: string, p: char -> bool)
    ensures Filter(s + t, p) == Filter(s, p) + Filter(t, p)
    decreases |s|
  {
    if s != [] {
      assert (s + t)[0] == s[0];
      assert (s + t)[1..] == s[1..] + t;
      FilterAppend(s[1..], t, p);
    } else {
      assert s + t == t;
    }
  }

  /** `filter { p }.count` is the number of positions whose character satisfies `p`. */
  lemma {:induction false} FilterCountsPositions(s: string, p: char -> bool)
    ensures |Filter(s, p)| == |Positions(s, p)|
    decreases |s|
  {
    if s == [] {
      assert Positions(s, p) == {};
    } else {
      var init, last := s[..|s| - 1], s[|s| - 1];
      assert s == init + [last];
      FilterAppend(init, [last], p);
      assert [last][1..] == [];
      FilterCountsPositions(init, p);
      if p(last) {
        assert Positions(s, p) == Positions(init, p) + {|init|};
        assert |init| !in Positions(init, p);
      } else {
        assert Positions(s, p) == Positions(init, p);
      }
    }
  }

  /** `filter` keeps every occurrence of a character satisfying `p` and none of the others. */
  lemma {:induction false} FilterMultiset(s: string, p: char -> bool, c: char)
    ensures multiset(Filter(s, p))[c] == if p(c) then multiset(s)[c] else 0
    decreases |s|
  {
    if s != [] {
      FilterMultiset(s[1..], p, c);
      assert s == [s[0]] + s[1..];
      assert multiset(s) == multiset([s[0]]) + multiset(s[1..]);
    }
  }

  /** The count of characters satisfying `p` depends only on the multiset of characters. */
  lemma FilterCountPermutation(s: string, t: string, p: char -> bool)
    requires multiset(s) == multiset(t)
    ensures |Filter(s, p)| == |Filter(t, p)|
  {
    forall c
      ensures multiset(Filter(s, p))[c] == multiset(Filter(t, p))[c]
    {
      FilterMultiset(s, p, c);
      FilterMultiset(t, p, c);
    }
    assert multiset(Filter(s, p)) == multiset(Filter(t, p));
    assert |multiset(Filter(s, p))| == |Filter(s, p)|;
    assert |multiset(Filter(t, p))| == |Filter(t, p)|;
  }

  /** Whether every character satisfies `p` depends only on the multiset of characters. */
  lemma AllSatisfyPermutation(s: string, t: string, p: char -> bool)
    requires multiset(s) == multiset(t)
    ensures AllSatisfy(s, p) == AllSatisfy(t, p)
  {
    if AllSatisfy(s, p) {
      forall i | 0 <= i < |t| ensures p(t[i]) {
        assert t[i] in multiset(s);
      }
    }
    if AllSatisfy(t, p) {
      forall i | 0 <= i < |s| ensures p(s[i]) {
        assert s[i] in multiset(t);
      }
    }
  }

  /** A character satisfying `p` anywhere in `s` makes the count at least one. */
  lemma FilterCountPositive(s: string, p: char -> bool, i: int)
    requires 0 <= i < |s| && p(s[i])
    ensures |Filter(s, p)| >= 1
  {
    FilterCountsPositions(s, p);
    assert i in Positions(s, p);
  }

  /** `allSatisfy` and `filter` agree: every character satisfies `p` exactly when filtering keeps them all. */
  lemma {:induction false} FilterKeepsAll(s: string, p: char -> bool)
    ensures AllSatisfy(s, p) <==> Filter(s, p) == s
    ensures AllSatisfy(s, p) <==> |Filter(s, p)| == |s|
    decreases |s|
  {
    if s != [] {
      FilterKeepsAll(s[1..], p);
      if p(s[0]) {
        if AllSatisfy(s[1..], p) {
          forall i | 0 <= i < |s| ensures p(s[i]) {
            if i > 0 { assert s[i] == s[1..][i - 1]; }
          }
          assert s == [s[0]] + s[1..];
        } else {
          var i :| 0 <= i < |s[1..]| && !p(s[1..][i]);
          assert !p(s[i + 1]);
        }
      } else {
        assert !p(s[0]);
      }
    }
  }

  /** A weaker test never counts fewer characters. */
  lemma {:induction false} FilterCountMonotone(s: string, p: char -> bool, q: char -> bool)
    requires forall i | 0 <= i < |s| :: p(s[i]) ==> q(s[i])
    ensures |Filter(s, p)| <= |Filter(s, q)|
    decreases |s|
  {
    if s != [] {
      FilterCountMonotone(s[1..], p, q);
    }
  }

  /** Two tests that no character of `s` satisfies together count at most `|s|` between them. */
  lemma {:induction false} FilterCountDisjoint(s: string, p: char -> bool, q: char -> bool)
    requires forall i | 0 <= i < |s| :: !(p(s[i]) && q(s[i]))
    ensures |Filter(s, p)| + |Filter(s, q)| <= |s|
    decreases |s|
  {
    if s != [] {
      FilterCountDisjoint(s[1..], p, q);
    }
  }

  /** The value of an ASCII digit. */
  function DigitValue(c: char): (v: nat)
    requires IsAsciiDigit(c)
    ensures v <= 9
  {
    c as int - '0' as int
  }

  function DigitChar(v: nat): (c: char)
    requires v <= 9
    ensures IsAsciiDigit(c) && DigitValue(c) == v
  {
    ('0' as int + v) as char
  }

  predicate AllDigits(s: string) {
    forall i | 0 <= i < |s| :: IsAsciiDigit(s[i])
  }

  function Pow10(n: nat): (r: nat)
    ensures r >= 1
  {
    if n == 0 then 1 else 10 * Pow10(n - 1)
  }

  /** The number a string of decimal digits denotes (leading zeros allowed). */
  function DecimalValue(s: string): (v: nat)
    requires AllDigits(s)
    ensures v < Pow10(|s|)
  {
    if s == [] then 0 else 10 * DecimalValue(s[..|s| - 1]) + DigitValue(s[|s| - 1])
  }

  /** `n` written in decimal with exactly `width` digits, padded with leading zeros. */
  function ZeroPadded(n: nat, width: nat): (s: string)
    requires n < Pow10(width)
    ensures |s| == width && AllDigits(s)
  {
    if width == 0 then [] else ZeroPadded(n / 10, width - 1) + [DigitChar(n % 10)]
  }

  lemma {:induction false} DecimalValueOfZeroPadded(n: nat, width: nat)
    requires n < Pow10(width)
    ensures DecimalValue(ZeroPadded(n, width)) == n
    decreases width
  {
    if width > 0 {
      var s := ZeroPadded(n, width);
      DecimalValueOfZeroPadded(n / 10, width - 1);
      assert s[..|s| - 1] == ZeroPadded(n / 10, width - 1);
    }
  }

  lemma LastDecimalDigit(q: nat, d: nat)
    requires d <= 9
    ensures (10 * q + d) / 10 == q && (10 * q + d) % 10 == d
  {
  }

  lemma {:induction false} ZeroPaddedOfDecimalValue(s: string)
    requires AllDigits(s)
    ensures ZeroPadded(DecimalValue(s), |s|) == s
    decreases |s|
  {
    if s != [] {
      var init := s[..|s| - 1];
      ZeroPaddedOfDecimalValue(init);
      LastDecimalDigit(DecimalValue(init), DigitValue(s[|s| - 1]));
      assert s == init + [s[|s| - 1]];
    }
  }

  /** The value of a string of one to four digits, digit by digit. */
  lemma SmallDecimalValue(u: string)
    requires 1 <= |u| <= 4 && AllDigits(u)
    ensures |u| == 1 ==> DecimalValue(u) == DigitValue(u[0])
    ensures |u| == 2 ==> DecimalValue(u) == 10 * DigitValue(u[0]) + DigitValue(u[1])
    ensures |u| == 3 ==> DecimalValue(u) == 100 * DigitValue(u[0]) + 10 * DigitValue(u[1]) + DigitValue(u[2])
    ensures |u| == 4 ==> DecimalValue(u) == 1000 * DigitValue(u[0]) + 100 * DigitValue(u[1]) + 10 * DigitValue(u[2]) + DigitValue(u[3])
  {
    assert DecimalValue(u[..0]) == 0;
    if |u| >= 2 {
      assert u[..2][..1] == u[..1];
      assert u[..1][..0] == u[..0];
    }
    if |u| >= 3 {
      assert u[..3][..2] == u[..2];
    }
    if |u| == 3 {
      assert u[..3] == u;
    }
    if |u| == 4 {
      assert u[..4][..3] == u[..3];
      assert u[..4] == u;
    }
  }

  // ---------------------------------------------------------------------------
  // Pieces of a string between separators
  // ---------------------------------------------------------------------------

  /** The position of the first `c` in `s`. */
  function IndexOf(s: string, c: char): (k: nat)
    requires c in s
    ensures k < |s| && s[k] == c && c !in s[..k]
  {
    if s[0] == c then 0 else 1 + IndexOf(s[1..], c)
  }

  /** The pieces of `s` between occurrences of `c`, empty pieces included: `a..b` has three. */
  function Split(s: string, c: char): (r: seq<string>)
    ensures |r| >= 1
    ensures forall i | 0 <= i < |r| :: c !in r[i]
  {
    if s == [] then [[]]
    else
      var rest := Split(s[1..], c);
      if s[0] == c then [[]] + rest else [[s[0]] + rest[0]] + rest[1..]
  }

  /** The pieces put back together with `c` between each two. */
  function Join(pieces: seq<string>, c: char): (s: string)
    requires |pieces| >= 1
  {
    if |pieces| == 1 then pieces[0] else pieces[0] + [c] + Join(pieces[1..], c)
  }

  lemma {:induction false} SplitWithout(s: string, c: char)
    requires c !in s
    ensures Split(s, c) == [s]
    decreases |s|
  {
    if s != [] {
      assert c !in s[1..] by {
        forall i | 0 <= i < |s| - 1 ensures s[1..][i] != c {
          assert s[1..][i] == s[i + 1];
        }
      }
      SplitWithout(s[1..], c);
      assert [s[0]] + s[1..] == s;
    }
  }

  /** Splitting at the first separator: the first piece, then the pieces of the rest. */
  lemma {:induction false} SplitAtFirst(s: string, c: char, k: nat)
    requires k < |s| && s[k] == c && c !in s[..k]
    ensures Split(s, c) == [s[..k]] + Split(s[k + 1..], c)
    decreases k
  {
    if k > 0 {
      assert s[0] != c by { assert s[..k][0] == s[0]; }
      assert s[1..][..k - 1] == s[1..k];
      assert s[1..][k - 1] == c;
      assert c !in s[1..][..k - 1] by {
        var t := s[1..][..k - 1];
        forall i | 0 <= i < |t| ensures t[i] != c {
          assert t[i] == s[..k][i + 1];
        }
      }
      SplitAtFirst(s[1..], c, k - 1);
      assert s[1..][k..] == s[k + 1..];
      assert [s[0]] + s[1..k] == s[..k];
    }
  }

  /** A `c` with none before it is the first. */
  lemma FirstOccurrence(s: string, c: char, k: nat)
    requires k < |s| && s[k] == c && c !in s[..k]
    ensures IndexOf(s, c) == k
  {
    var f := IndexOf(s, c);
  }

  /** The position of the first `c` in `s` from `i` up to (not including) `j`, or `j` when there is none. */
  function FirstIndex(s: string, c: char, i: int, j: int): (f: int)
    requires 0 <= i <= j <= |s|
    ensures i <= f <= j && (f < j ==> s[f] == c)
    ensures forall m | i <= m < f :: s[m] != c
    decreases j - i
  {
    if i == j then j else if s[i] == c then i else FirstIndex(s, c, i + 1, j)
  }

  /** The pieces of the range of `s` from `i` to `j`: the piece before its first `c`, then the pieces after it. */
  lemma SplitRange(s: string, c: char, i: int, j: int)
    requires 0 <= i <= j <= |s|
    ensures FirstIndex(s, c, i, j) == j ==> Split(s[i..j], c) == [s[i..j]]
    ensures FirstIndex(s, c, i, j) < j ==>
      var f := FirstIndex(s, c, i, j);
      Split(s[i..j], c) == [s[i..f]] + Split(s[f + 1..j], c)
  {
    var f := FirstIndex(s, c, i, j);
    var u := s[i..j];
    var t := u[..f - i];
    assert c !in t by {
      forall m | 0 <= m < |t| ensures t[m] != c {
        assert t[m] == s[i + m];
      }
    }
    if f == j {
      assert t == u;
      SplitWithout(u, c);
    } else {
      SplitAtFirst(u, c, f - i);
      assert t == s[i..f];
      assert u[f - i + 1..] == s[f + 1..j];
    }
  }

  /** A piece free of the separator, the separator, then the rest: the piece comes first. */
  lemma SplitCons(a: string, c: char, rest: string)
    requires c !in a
    ensures Split(a + [c] + rest, c) == [a] + Split(rest, c)
  {
    var s := a + [c] + rest;
    assert s[..|a|] == a && s[|a|] == c && s[|a| + 1..] == rest;
    SplitAtFirst(s, c, |a|);
  }

  /** The first piece is everything before the first separator. */
  lemma SplitFirstPiece(s: string, c: char)
    ensures Split(s, c)[0] == s[..FirstIndex(s, c, 0, |s|)]
  {
    SplitRange(s, c, 0, |s|);
    assert s[0..|s|] == s;
  }

  /** `Join` undoes `Split`. */
  lemma {:induction false} JoinSplit(s: string, c: char)
    ensures Join(Split(s, c), c) == s
    decreases |s|
  {
    if c in s {
      var k := IndexOf(s, c);
      SplitAtFirst(s, c, k);
      JoinSplit(s[k + 1..], c);
      assert Split(s, c)[1..] == Split(s[k + 1..], c);
      assert s == s[..k] + [c] + s[k + 1..];
    } else {
      SplitWithout(s, c);
    }
  }

  /** `Split` undoes `Join` of pieces free of the separator. */
  lemma {:induction false} SplitJoin(pieces: seq<string>, c: char)
    requires |pieces| >= 1 && forall i | 0 <= i < |pieces| :: c !in pieces[i]
    ensures Split(Join(pieces, c), c) == pieces
    decreases |pieces|
  {
    if |pieces| == 1 {
      SplitWithout(pieces[0], c);
    } else {
      var s := Join(pieces, c);
      var k := |pieces[0]|;
      assert s[..k] == pieces[0];
      assert s[k + 1..] == Join(pieces[1..], c);
      SplitAtFirst(s, c, k);
      SplitJoin(pieces[1..], c);
    }
  }
}
