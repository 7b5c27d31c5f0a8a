// What the two comparison routes of vercmp.c owe each other, and the order that
// "less than" puts on versions.
module VersionLaws {
  import opened StringOrder
  import opened PackageVersions

  // ---------------------------------------------------------------- the derived route

  function InvertResult(result: Verdict): Verdict {
    match result
    case Error => Error
    case NoMatch => Match
    case Match => NoMatch
  }

  function AndResults(lhs: Verdict, rhs: Verdict): Verdict {
    if lhs.Error? || rhs.Error? then Error else Decide(lhs.Match? && rhs.Match?)
  }

  function CompareVersionsLess(v1: string, v2: string): Verdict {
    DirectVerdict(v1, v2, LT)
  }

  /** lessOnly: only a "less than" test is available, as with package_version_less_command. */
  function CompareVersionsEqual(v1: string, v2: string, lessOnly: bool): Verdict {
    if lessOnly then
      AndResults(InvertResult(CompareVersionsLess(v1, v2)), InvertResult(CompareVersionsLess(v2, v1)))
    else DirectVerdict(v1, v2, EQ)
  }

  function CompareVersions(v1: string, v2: string, select: Comparator, lessOnly: bool): Verdict {
    match select
    case EQ => CompareVersionsEqual(v1, v2, lessOnly)
    case NONE => CompareVersionsEqual(v1, v2, lessOnly)
    case NEQ => InvertResult(CompareVersionsEqual(v1, v2, lessOnly))
    case LT => CompareVersionsLess(v1, v2)
    case GT => CompareVersionsLess(v2, v1)
    case GE => InvertResult(CompareVersionsLess(v1, v2))
    case LE => InvertResult(CompareVersionsLess(v2, v1))
  }

  // ---------------------------------------------------------------- well-formed versions

  predicate LongRunAt(s: string, i: nat) {
    i + NUMERAL_WIDTH < |s| && forall j | i <= j <= i + NUMERAL_WIDTH :: IsAlnum(s[j])
  }

  ghost predicate RunsFit(s: string) {
    forall i: nat :: !LongRunAt(s, i)
  }

  ghost predicate WellFormed(v: string) {
    v != "" && ',' !in v && IsAlnum(v[|v| - 1]) && RunsFit(v)
  }

  // ---------------------------------------------------------------- tokenizing can be undone

  function Interleave(numbers: seq<string>, separators: seq<string>): string {
    if numbers == [] then ""
    else if separators == [] then numbers[0]
    else numbers[0] + separators[0] + Interleave(numbers[1..], separators[1..])
  }

  function Rebuilt(s: string): string {
    Interleave(Tokenize(s).numbers, Tokenize(s).separators)
  }

  lemma {:induction false} RebuiltIsNoLonger(s: string)
    ensures |Rebuilt(s)| <= |s|
    decreases |s|
  {
    var n := NumeralLength(s, NUMERAL_WIDTH);
    if n < |s| {
      RebuiltIsNoLonger(s[n + 1..]);
    }
  }

  lemma RunsFitAfterSeparator(s: string, n: nat)
    requires n == NumeralLength(s, NUMERAL_WIDTH) < |s|
    requires !IsAlnum(s[n])
    ensures RunsFit(s) <==> RunsFit(s[n + 1..])
  {
    var rest := s[n + 1..];
    forall i: nat | LongRunAt(rest, i) ensures LongRunAt(s, n + 1 + i) {
      forall j | n + 1 + i <= j <= n + 1 + i + NUMERAL_WIDTH ensures IsAlnum(s[j]) {
        assert IsAlnum(rest[j - n - 1]);
      }
    }
    forall i: nat | LongRunAt(s, i) ensures i > n && LongRunAt(rest, i - n - 1) {
      if i <= n {
        assert false;
      }
      forall j | i - n - 1 <= j <= i - n - 1 + NUMERAL_WIDTH ensures IsAlnum(rest[j]) {
        assert IsAlnum(s[j + n + 1]);
      }
    }
  }

  // The tokenizer loses nothing exactly when no alphanumeric run is cut short.
  lemma {:induction false} TokenizingIsInvertibleExactly(s: string)
    ensures Rebuilt(s) == s <==> RunsFit(s)
    decreases |s|
  {
    if s != "" {
      var n := NumeralLength(s, NUMERAL_WIDTH);
      if n < |s| {
        var rest := s[n + 1..];
        if IsAlnum(s[n]) {
          assert LongRunAt(s, 0);
          RebuiltIsNoLonger(rest);
        } else {
          TokenizingIsInvertibleExactly(rest);
          RunsFitAfterSeparator(s, n);
          assert s == s[..n] + [s[n]] + rest;
        }
      }
    }
  }

  lemma {:induction false} OneMoreNumberThanSeparators(s: string)
    requires s != "" && IsAlnum(s[|s| - 1]) && RunsFit(s)
    ensures |Tokenize(s).numbers| == |Tokenize(s).separators| + 1
    decreases |s|
  {
    var n := NumeralLength(s, NUMERAL_WIDTH);
    if n < |s| {
      if IsAlnum(s[n]) {
        assert LongRunAt(s, 0);
        assert false;
      } else {
        RunsFitAfterSeparator(s, n);
        OneMoreNumberThanSeparators(s[n + 1..]);
      }
    }
  }

  lemma WithoutCommaCanonifyIsIdentity(v: string)
    requires ',' !in v
    ensures Canonify(v) == v
  {
  }

  lemma {:induction false} TieMeansEqualNumbers(a: seq<string>, b: seq<string>)
    ensures CompareNumbers(a, b) == 0 <==> a == b
  {
    if a == b {
      EqualNumbersTie(a);
    } else if a != [] && b != [] {
      CompareIsZeroOnlyOnEqual(a[0], b[0]);
      TieMeansEqualNumbers(a[1..], b[1..]);
      assert a == [a[0]] + a[1..] && b == [b[0]] + b[1..];
    }
  }

  // Well-formed compatible versions that tie component by component are the same string.
  lemma WellFormedTiesAreEqual(v1: string, v2: string)
    requires WellFormed(v1) && WellFormed(v2) && CompatibleVersions(v1, v2)
    requires Parsed(v1).numbers == Parsed(v2).numbers
    ensures v1 == v2
  {
    WithoutCommaCanonifyIsIdentity(v1);
    WithoutCommaCanonifyIsIdentity(v2);
    OneMoreNumberThanSeparators(v1);
    OneMoreNumberThanSeparators(v2);
    assert Parsed(v1).separators == Parsed(v2).separators;
    TokenizingIsInvertibleExactly(v1);
    TokenizingIsInvertibleExactly(v2);
  }

  // ---------------------------------------------------------------- the two routes

  /** Versions whose components tie are one and the same non-empty string. */
  predicate TiesAreEqual(v1: string, v2: string) {
    Parsed(v1).numbers == Parsed(v2).numbers ==> v1 == v2 && v1 != ""
  }

  lemma ErrorExactlyOnDifferentSeparators(v1: string, v2: string, cmp: Comparator, lessOnly: bool)
    ensures DirectVerdict(v1, v2, cmp).Error?
            <==> exists k :: 0 <= k < |Parsed(v1).separators| && k < |Parsed(v2).separators|
                             && Parsed(v1).separators[k] != Parsed(v2).separators[k]
    ensures CompareVersions(v1, v2, cmp, lessOnly).Error? <==> DirectVerdict(v1, v2, cmp).Error?
  {
    var s1, s2 := Parsed(v1).separators, Parsed(v2).separators;
    assert Compatible(s1, s2) <==> Compatible(s2, s1) by {
      assert forall k | 0 <= k < |s1| && k < |s2| :: s1[k] == s2[k] <==> s2[k] == s1[k];
    }
  }

  // On any two compatible versions, each derived comparator gives the direct answer
  // exactly under the stated condition.
  lemma RoutesAgreeExactly(v1: string, v2: string)
    requires CompatibleVersions(v1, v2)
    ensures CompareVersions(v1, v2, GT, false) == DirectVerdict(v1, v2, GT)
    ensures CompareVersions(v1, v2, GE, false) == DirectVerdict(v1, v2, GE) <==> TiesAreEqual(v1, v2)
    ensures CompareVersions(v1, v2, LE, false) == DirectVerdict(v1, v2, LE) <==> TiesAreEqual(v1, v2)
    ensures CompareVersions(v1, v2, NEQ, false) == DirectVerdict(v1, v2, NEQ) <==> v1 != "" && v2 != ""
    ensures CompareVersions(v1, v2, EQ, true) == DirectVerdict(v1, v2, EQ) <==> TiesAreEqual(v1, v2)
  {
    ErrorExactlyOnDifferentSeparators(v2, v1, LT, false);
    NumbersCompareAntisymmetrically(Parsed(v1).numbers, Parsed(v2).numbers);
    TieMeansEqualNumbers(Parsed(v1).numbers, Parsed(v2).numbers);
  }

  lemma WellFormedRoutesAgree(v1: string, v2: string, cmp: Comparator)
    requires WellFormed(v1) && WellFormed(v2)
    ensures CompareVersions(v1, v2, cmp, false) == DirectVerdict(v1, v2, cmp)
    ensures CompareVersions(v1, v2, EQ, true) == DirectVerdict(v1, v2, EQ)
  {
    if CompatibleVersions(v1, v2) {
      RoutesAgreeExactly(v1, v2);
      if Parsed(v1).numbers == Parsed(v2).numbers {
        WellFormedTiesAreEqual(v1, v2);
      }
    } else {
      ErrorExactlyOnDifferentSeparators(v1, v2, cmp, false);
      ErrorExactlyOnDifferentSeparators(v1, v2, EQ, true);
    }
  }

  // A trailing separator is enough to split the two routes: it adds no component, so the
  // components tie although the strings differ.
  lemma TrailingSeparatorSplitsTheRoutes()
    ensures DirectVerdict("1", "1.", GE) == NoMatch
    ensures CompareVersions("1", "1.", GE, false) == Match
  {
    assert Canonify("1") == "1" && Canonify("1.") == "1.";
    assert NumeralLength("1", NUMERAL_WIDTH) == 1;
    assert NumeralLength("1.", NUMERAL_WIDTH) == 1;
    assert "1."[2..] == "" && "1."[..1] == "1";
    assert Tokenize("1.") == Tokens(["1"], ["."]);
    TieMeansEqualNumbers(["1"], ["1"]);
  }

  // ---------------------------------------------------------------- less than is a strict total order

  lemma {:induction false} NumbersCompareTransitively(a: seq<string>, b: seq<string>, c: seq<string>)
    requires CompareNumbers(a, b) < 0 && CompareNumbers(b, c) < 0
    ensures CompareNumbers(a, c) < 0
  {
    if a != [] && b != [] && c != [] {
      CompareIsZeroOnlyOnEqual(a[0], b[0]);
      CompareIsZeroOnlyOnEqual(b[0], c[0]);
      CompareIsZeroOnlyOnEqual(a[0], c[0]);
      if a[0] == b[0] == c[0] {
        NumbersCompareTransitively(a[1..], b[1..], c[1..]);
      } else if a[0] != b[0] && b[0] != c[0] {
        BeforeIsTransitive(a[0], b[0], c[0]);
      }
    }
  }

  /** The order: on compatible versions less-than is the order of the numerals, from the left. */
  lemma LessIsTheOrderOfTheNumerals(v1: string, v2: string)
    requires CompatibleVersions(v1, v2)
    ensures CompareVersionsLess(v1, v2) == Match <==> NumbersComeFirst(Parsed(v1).numbers, Parsed(v2).numbers)
  {
    VerdictsInWords(v1, v2, LT);
  }

  /** A run of at most 29 letters and digits is taken whole, up to the separator behind it. */
  lemma NumeralsAreTakenWhole(numeral: string, separator: char, rest: string)
    requires |numeral| <= NUMERAL_WIDTH
    requires forall i | 0 <= i < |numeral| ::
               '0' <= numeral[i] <= '9' || 'a' <= numeral[i] <= 'z' || 'A' <= numeral[i] <= 'Z'
    requires !('0' <= separator <= '9' || 'a' <= separator <= 'z' || 'A' <= separator <= 'Z')
    ensures numeral != "" ==> Tokenize(numeral) == Tokens([numeral], [])
    ensures Tokenize(numeral + [separator] + rest)
         == Tokens([numeral] + Tokenize(rest).numbers, [[separator]] + Tokenize(rest).separators)
  {
    var s, n := numeral + [separator] + rest, |numeral|;
    assert forall i | 0 <= i < n :: s[i] == numeral[i];
    NumeralEnds(numeral, n);
    NumeralEnds(s, n);
    FirstTokens(s, numeral, separator, rest);
  }

  lemma NumeralEnds(s: string, n: nat)
    requires n <= |s| && n <= NUMERAL_WIDTH && (forall i | 0 <= i < n :: IsAlnum(s[i])) && (n < |s| ==> !IsAlnum(s[n]))
    ensures NumeralLength(s, NUMERAL_WIDTH) == n
  {
  }

  lemma FirstTokens(s: string, numeral: string, separator: char, rest: string)
    requires s == numeral + [separator] + rest && NumeralLength(s, NUMERAL_WIDTH) == |numeral| && !IsAlnum(separator)
    ensures Tokenize(s) == Tokens([numeral] + Tokenize(rest).numbers, [[separator]] + Tokenize(rest).separators)
  {
    var n := |numeral|;
    assert s[n] == separator && s[..n] == numeral && s[n + 1..] == rest;
  }

  lemma TwoNumerals(v: string, a: string, b: string)
    requires v == a + "." + b && |a| == |b| == 1 && '0' <= a[0] <= '9' && '0' <= b[0] <= '9'
    ensures Parsed(v) == Tokens([a, b], ["."]) && Parsed(a) == Tokens([a], [])
  {
    NumeralsAreTakenWhole(a, '.', b);
    NumeralsAreTakenWhole(b, '.', "");
    assert Canonify(v) == v && Canonify(a) == a && v == a + ['.'] + b && ['.'] == ".";
  }

  /** "1" comes before "1.2", and "1.2" before "1.3", not the other way around. */
  lemma LongerAndGreaterVersionsComeLater()
    ensures CompareVersionsLess("1", "1.2") == Match && CompareVersionsLess("1.2", "1") == NoMatch
    ensures CompareVersionsLess("1.2", "1.3") == Match && CompareVersionsLess("1.3", "1.2") == NoMatch
  {
    assert "1" + "." + "2" == "1.2" && "1" + "." + "3" == "1.3";
    TwoNumerals("1.2", "1", "2");
    TwoNumerals("1.3", "1", "3");
    var a, b, c := ["1"], ["1", "2"], ["1", "3"];
    LessIsTheOrderOfTheNumerals("1", "1.2");
    LessIsTheOrderOfTheNumerals("1.2", "1.3");
    NumbersBeforeExactly(a, b);
    NumbersCompareAntisymmetrically(a, b);
    assert a < b;
    NumbersBeforeExactly(b, c);
    NumbersCompareAntisymmetrically(b, c);
    assert "2"[0] == '2' && "3"[0] == '3' && "2"[..0] == "3"[..0];
    assert b[..1] == c[..1] && ComesFirst(b[1], c[1]);
  }

  lemma LessIsIrreflexive(v: string)
    ensures CompareVersionsLess(v, v) == NoMatch
  {
    EqualNumbersTie(Parsed(v).numbers);
  }

  lemma LessIsTransitive(a: string, b: string, c: string)
    requires CompatibleVersions(a, c)
    requires CompareVersionsLess(a, b) == Match && CompareVersionsLess(b, c) == Match
    ensures CompareVersionsLess(a, c) == Match
  {
    NumbersCompareTransitively(Parsed(a).numbers, Parsed(b).numbers, Parsed(c).numbers);
  }

  lemma ExactlyOneOrderHolds(a: string, b: string)
    requires WellFormed(a) && WellFormed(b) && CompatibleVersions(a, b)
    ensures var lt := CompareVersionsLess(a, b) == Match;
            var gt := CompareVersionsLess(b, a) == Match;
            var eq := CompareVersionsEqual(a, b, false) == Match;
            (lt || gt || eq) && !(lt && gt) && !(lt && eq) && !(gt && eq)
  {
    WellFormedRoutesAgree(a, b, EQ);
    ErrorExactlyOnDifferentSeparators(b, a, LT, false);
    NumbersCompareAntisymmetrically(Parsed(a).numbers, Parsed(b).numbers);
    TieMeansEqualNumbers(Parsed(a).numbers, Parsed(b).numbers);
    if Parsed(a).numbers == Parsed(b).numbers {
      WellFormedTiesAreEqual(a, b);
    }
  }
}
