// Package version comparison: the tokenizer and the six comparators of
// vercmp_internal.c, and the derived route of vercmp.c.
module PackageVersions {
  import opened StringOrder

  const NUMERAL_WIDTH: nat := 29

  datatype Comparator = EQ | NONE | NEQ | GT | LT | GE | LE

  datatype Verdict = Error | NoMatch | Match

  datatype Tokens = Tokens(numbers: seq<string>, separators: seq<string>)

  predicate IsAlnum(c: char) {
    '0' <= c <= '9' || 'a' <= c <= 'z' || 'A' <= c <= 'Z'
  }

  /** The characters "%29[0-9a-zA-Z]" takes from the front of s. */
  function NumeralLength(s: string, width: nat): (n: nat)
    ensures n <= |s| && n <= width
    ensures forall i | 0 <= i < n :: IsAlnum(s[i])
    ensures n < |s| && IsAlnum(s[n]) ==> n == width
  {
    if s == "" || width == 0 || !IsAlnum(s[0]) then 0
    else 1 + NumeralLength(s[1..], width - 1)
  }

  /** The text "%1[^0-9a-zA-Z]" takes at c: nothing when a numeral was cut short. */
  function SeparatorAt(c: char): string {
    if IsAlnum(c) then "" else [c]
  }

  function Tokenize(s: string): Tokens
    decreases |s|
  {
    if s == "" then Tokens([], [])
    else
      var n := NumeralLength(s, NUMERAL_WIDTH);
      if n == |s| then Tokens([s], [])
      else
        var rest := Tokenize(s[n + 1..]);
        Tokens([s[..n]] + rest.numbers, [SeparatorAt(s[n])] + rest.separators)
  }

  function Canonify(s: string): (r: string)
    ensures |r| == |s|
    ensures forall i | 0 <= i < |s| :: r[i] == if s[i] == ',' then '_' else s[i]
  {
    seq(|s|, i requires 0 <= i < |s| => if s[i] == ',' then '_' else s[i])
  }

  function Parsed(version: string): Tokens {
    Tokenize(Canonify(version))
  }

  /** sscanf with "%29[0-9a-zA-Z]". */
  method ScanNumeral(version: string, sp: nat) returns (n: nat, numeral: string)
    requires sp <= |version|
    ensures n == NumeralLength(version[sp..], NUMERAL_WIDTH) && sp + n <= |version| && numeral == version[sp..sp + n]
  {
    n := NumeralLength(version[sp..], NUMERAL_WIDTH);
    numeral := version[sp..sp + n];
  }

  method ParsePackageVersion(version: string) returns (num: seq<string>, sep: seq<string>)
    ensures Tokens(num, sep) == Tokenize(version)
  {
    ghost var all := Tokenize(version);
    num, sep := [], [];
    var sp := 0;
    while sp < |version|
      invariant 0 <= sp <= |version|
      invariant Continued(num, sep, version[sp..]) == all
    {
      var n, numeral := ScanNumeral(version, sp);
      if sp + n == |version| {
        LastToken(num, sep, version, sp, n, all);
        num := num + [numeral];
        return;
      }
      NextToken(num, sep, version, sp, n, all);
      num := num + [numeral];
      sep := sep + [SeparatorAt(version[sp + n])];
      sp := sp + n + 1;
    }
  }

  lemma NextToken(num: seq<string>, sep: seq<string>, version: string, sp: nat, n: nat, all: Tokens)
    requires sp + n < |version| && n == NumeralLength(version[sp..], NUMERAL_WIDTH)
    requires Continued(num, sep, version[sp..]) == all
    ensures Continued(num + [version[sp..sp + n]], sep + [SeparatorAt(version[sp + n])], version[sp + n + 1..]) == all
  {
    var here := version[sp..];
    assert here[..n] == version[sp..sp + n] && here[n] == version[sp + n] && here[n + 1..] == version[sp + n + 1..];
  }

  lemma LastToken(num: seq<string>, sep: seq<string>, version: string, sp: nat, n: nat, all: Tokens)
    requires sp + n == |version| && n == NumeralLength(version[sp..], NUMERAL_WIDTH) && sp < |version|
    requires Continued(num, sep, version[sp..]) == all
    ensures Tokens(num + [version[sp..sp + n]], sep) == all
  {
    assert version[sp..sp + n] == version[sp..];
  }

  // num and sep are what has been appended so far, rest is what is still to be read.
  ghost function Continued(num: seq<string>, sep: seq<string>, rest: string): Tokens {
    Tokens(num + Tokenize(rest).numbers, sep + Tokenize(rest).separators)
  }

  // ---------------------------------------------------------------- direct comparison

  /** Left-to-right comparison of the alphanumeric components; a proper prefix is smaller. */
  function CompareNumbers(a: seq<string>, b: seq<string>): (sign: int)
    ensures -1 <= sign <= 1
  {
    if a == [] && b == [] then 0
    else if a == [] then -1
    else if b == [] then 1
    else if Compare(a[0], b[0]) != 0 then Compare(a[0], b[0])
    else CompareNumbers(a[1..], b[1..])
  }

  /** A proper prefix, or the numeral that comes first at the first position where they differ. */
  ghost predicate NumbersComeFirst(a: seq<string>, b: seq<string>) {
    a < b || exists k :: 0 <= k < |a| && k < |b| && a[..k] == b[..k] && ComesFirst(a[k], b[k])
  }

  lemma {:induction false} NumbersBeforeExactly(a: seq<string>, b: seq<string>)
    ensures CompareNumbers(a, b) < 0 <==> NumbersComeFirst(a, b)
  {
    if a != [] && b != [] {
      BeforeExactly(a[0], b[0]);
      CompareIsZeroOnlyOnEqual(a[0], b[0]);
      if a[0] == b[0] {
        NumbersBeforeExactly(a[1..], b[1..]);
        NumbersComeFirstBehind(a, b);
      } else {
        assert a[..0] == b[..0];
        NumbersDifferAtOnce(a, b);
      }
    }
  }

  lemma NumbersDifferAtOnce(a: seq<string>, b: seq<string>)
    requires a != [] && b != [] && a[0] != b[0]
    ensures NumbersComeFirst(a, b) <==> ComesFirst(a[0], b[0])
  {
    if ComesFirst(a[0], b[0]) {
      assert a[..0] == b[..0];
    }
    if k :| 0 <= k < |a| && k < |b| && a[..k] == b[..k] && ComesFirst(a[k], b[k]) {
      assert k > 0 ==> a[..k][0] == b[..k][0];
    }
  }

  lemma NumbersComeFirstBehind(a: seq<string>, b: seq<string>)
    requires a != [] && b != [] && a[0] == b[0]
    ensures NumbersComeFirst(a, b) <==> NumbersComeFirst(a[1..], b[1..])
  {
    assert a == [a[0]] + a[1..] && b == [b[0]] + b[1..];
    BeforeExactly(a[0], a[0]);
    CompareIsZeroOnlyOnEqual(a[0], a[0]);
    if k :| 0 <= k < |a| && k < |b| && a[..k] == b[..k] && ComesFirst(a[k], b[k]) {
      assert a[1..][..k - 1] == a[..k][1..] && b[1..][..k - 1] == b[..k][1..];
      assert ComesFirst(a[1..][k - 1], b[1..][k - 1]);
    }
    if k :| 0 <= k < |a| - 1 && k < |b| - 1 && a[1..][..k] == b[1..][..k] && ComesFirst(a[1..][k], b[1..][k]) {
      assert a[..k + 1] == [a[0]] + a[1..][..k] && b[..k + 1] == [b[0]] + b[1..][..k];
      assert ComesFirst(a[k + 1], b[k + 1]);
    }
  }

  lemma {:induction false} NumbersCompareAntisymmetrically(a: seq<string>, b: seq<string>)
    ensures CompareNumbers(b, a) == -CompareNumbers(a, b)
  {
    if a != [] && b != [] {
      CompareIsAntisymmetric(a[0], b[0]);
      NumbersCompareAntisymmetrically(a[1..], b[1..]);
    }
  }

  /** What a verdict says about two versions, without the comparison functions. */
  ghost predicate Says(v1: string, v2: string, cmp: Comparator, matched: bool) {
    var a, b := Parsed(v1).numbers, Parsed(v2).numbers;
    var same := v1 == v2 && v1 != "";
    match cmp
    case EQ => matched <==> same
    case NONE => matched <==> same
    case NEQ => matched <==> v1 != v2 && v1 != "" && v2 != ""
    case GT => matched <==> NumbersComeFirst(b, a)
    case LT => matched <==> NumbersComeFirst(a, b)
    case GE => matched <==> NumbersComeFirst(b, a) || same
    case LE => matched <==> NumbersComeFirst(a, b) || same
  }

  lemma VerdictsInWords(v1: string, v2: string, cmp: Comparator)
    ensures DirectVerdict(v1, v2, cmp).Error? <==> !CompatibleVersions(v1, v2)
    ensures CompatibleVersions(v1, v2) ==> Says(v1, v2, cmp, DirectVerdict(v1, v2, cmp) == Match)
  {
    NumbersBeforeExactly(Parsed(v1).numbers, Parsed(v2).numbers);
    NumbersBeforeExactly(Parsed(v2).numbers, Parsed(v1).numbers);
    NumbersCompareAntisymmetrically(Parsed(v1).numbers, Parsed(v2).numbers);
  }

  predicate Compatible(a: seq<string>, b: seq<string>) {
    forall k | 0 <= k < |a| && k < |b| :: a[k] == b[k]
  }

  predicate CompatibleVersions(v1: string, v2: string) {
    Compatible(Parsed(v1).separators, Parsed(v2).separators)
  }

  function Decide(holds: bool): Verdict {
    if holds then Match else NoMatch
  }

  /** What the built-in comparator answers, without its loop. */
  function DirectVerdict(v1: string, v2: string, cmp: Comparator): Verdict {
    if !CompatibleVersions(v1, v2) then Error
    else
      var order := CompareNumbers(Parsed(v1).numbers, Parsed(v2).numbers);
      var bothHaveNumbers := v1 != "" && v2 != "";
      match cmp
      case EQ => Decide(bothHaveNumbers && v1 == v2)
      case NONE => Decide(bothHaveNumbers && v1 == v2)
      case NEQ => Decide(bothHaveNumbers && v1 != v2)
      case GT => Decide(order > 0)
      case LT => Decide(order < 0)
      case GE => Decide(order > 0 || (bothHaveNumbers && v1 == v2))
      case LE => Decide(order < 0 || (bothHaveNumbers && v1 == v2))
  }

  method SeparatorsAgree(sepPr: seq<string>, sepIn: seq<string>) returns (result: bool)
    ensures result <==> Compatible(sepPr, sepIn)
  {
    result := true;
    var k := 0;
    while k < |sepPr| && k < |sepIn|
      invariant 0 <= k <= |sepPr| && k <= |sepIn|
      invariant result && forall j | 0 <= j < k :: sepPr[j] == sepIn[j]
    {
      if Compare(sepPr[k], sepIn[k]) != 0 {
        CompareIsZeroOnlyOnEqual(sepPr[k], sepIn[k]);
        return false;
      }
      CompareIsZeroOnlyOnEqual(sepPr[k], sepIn[k]);
      if k + 1 == |sepPr| && k + 1 == |sepIn| {
        return true;
      }
      k := k + 1;
    }
  }

  lemma {:induction false} EqualNumbersTie(a: seq<string>)
    ensures CompareNumbers(a, a) == 0
  {
    if a != [] {
      CompareIsZeroOnlyOnEqual(a[0], a[0]);
      EqualNumbersTie(a[1..]);
    }
  }

  datatype Step = GoOn | Stop(matched: bool)

  /** One pass through the switch of the component loop. */
  function ComponentStep(cmp: Comparator, cmpResult: int, versionEqual: bool): Step {
    match cmp
    case EQ => if versionEqual then Stop(true) else GoOn
    case NONE => if versionEqual then Stop(true) else GoOn
    case NEQ => if !versionEqual then Stop(true) else GoOn
    case GT => if cmpResult > 0 then Stop(true) else if cmpResult < 0 then Stop(false) else GoOn
    case LT => if cmpResult < 0 then Stop(true) else if cmpResult > 0 then Stop(false) else GoOn
    case GE => if cmpResult > 0 || versionEqual then Stop(true) else if cmpResult < 0 then Stop(false) else GoOn
    case LE => if cmpResult < 0 || versionEqual then Stop(true) else if cmpResult > 0 then Stop(false) else GoOn
  }

  // The answer for two component lists; versionEqual says that the versions are the same text.
  ghost function RestVerdict(pr: seq<string>, inn: seq<string>, cmp: Comparator, versionEqual: bool): Verdict
  {
    var order := CompareNumbers(pr, inn);
    match cmp
    case EQ => Decide(pr != [] && inn != [] && versionEqual)
    case NONE => Decide(pr != [] && inn != [] && versionEqual)
    case NEQ => Decide(pr != [] && inn != [] && !versionEqual)
    case GT => Decide(order > 0)
    case LT => Decide(order < 0)
    case GE => Decide(order > 0 || (pr != [] && inn != [] && versionEqual))
    case LE => Decide(order < 0 || (pr != [] && inn != [] && versionEqual))
  }

  method ComparePackageVersionsInternal(v1: string, v2: string, cmp: Comparator) returns (matched: Verdict)
    ensures matched == DirectVerdict(v1, v2, cmp)
    ensures matched.Error? <==> !CompatibleVersions(v1, v2)
    ensures !matched.Error? ==> Says(v1, v2, cmp, matched == Match)
  {
    VerdictsInWords(v1, v2, cmp);
    var numbersPr, separatorsPr := ParsePackageVersion(Canonify(v1));
    var numbersIn, separatorsIn := ParsePackageVersion(Canonify(v2));
    var result := SeparatorsAgree(separatorsPr, separatorsIn);
    if !result {
      return Error;
    }
    assert RestVerdict(numbersPr, numbersIn, cmp, v2 == v1) == DirectVerdict(v1, v2, cmp);
    if v2 == v1 { EqualNumbersTie(numbersPr); }
    matched := CompareComponents(numbersPr, numbersIn, cmp, v2 == v1);
  }

  method CompareComponents(numbersPr: seq<string>, numbersIn: seq<string>, cmp: Comparator, versionEqual: bool)
    returns (matched: Verdict)
    requires versionEqual ==> numbersPr == numbersIn
    ensures matched == RestVerdict(numbersPr, numbersIn, cmp, versionEqual)
  {
    matched := NoMatch;
    var k := 0;
    while k < |numbersPr| && k < |numbersIn|
      invariant 0 <= k <= |numbersPr| && k <= |numbersIn|
      invariant cmp.EQ? || cmp.NONE? || cmp.NEQ?
                || CompareNumbers(numbersPr[k..], numbersIn[k..]) == CompareNumbers(numbersPr, numbersIn)
      invariant k > 0 ==> ComponentStep(cmp, 0, versionEqual) == GoOn
    {
      assert numbersPr[k..][1..] == numbersPr[k + 1..] && numbersIn[k..][1..] == numbersIn[k + 1..];
      var step := ComponentStep(cmp, Compare(numbersPr[k], numbersIn[k]), versionEqual);
      if step.Stop? {
        if versionEqual { CompareIsZeroOnlyOnEqual(numbersPr[k], numbersIn[k]); }
        return Decide(step.matched);
      }
      k := k + 1;
    }
    if k < |numbersPr| && (cmp.GT? || cmp.GE?) {
      matched := Match;
    }
    if k < |numbersIn| && (cmp.LT? || cmp.LE?) {
      matched := Match;
    }
  }
}
