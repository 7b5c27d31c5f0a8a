// The mode strings of access control entries: what the parser of acl_posix.c makes of
// them. verify_acl.c's syntax check in front of it is in AceSyntax.
module ModeStrings {

  datatype Perm = Read | Write | Execute

  // CF_VALID_OPS_METHOD_*, CF_VALID_GPERMS and CF_VALID_NPERMS_POSIX, and the empty string.
  datatype CharSet = ValidOps | PermChars | NoChars

  predicate In(c: char, chars: CharSet) {
    match chars
    case ValidOps => c == '=' || c == '+' || c == '-'
    case PermChars => c == 'r' || c == 'w' || c == 'x'
    case NoChars => false
  }

  const NATIVE_START := '('
  const NATIVE_END := ')'

  // ---------------------------------------------------------------- effects on permission sets

  /** Keep these permissions of a set, then add those. */
  datatype Effect = Effect(keep: set<Perm>, add: set<Perm>)

  const ALL_PERMS: set<Perm> := {Read, Write, Execute}

  function Act(effect: Effect, perms: set<Perm>): set<Perm> {
    (perms * effect.keep) + effect.add
  }

  /** First one effect, then the other. */
  function Then(first: Effect, second: Effect): Effect {
    Effect(first.keep * second.keep, first.add * second.keep + second.add)
  }

  const NO_EFFECT := Effect(ALL_PERMS, {})
  const CLEARING := Effect({}, {})

  function OnePerm(perm: Perm, deleting: bool): Effect {
    if deleting then Effect(ALL_PERMS - {perm}, {}) else Effect(ALL_PERMS, {perm})
  }

  lemma ActsInTurn(first: Effect, second: Effect, perms: set<Perm>)
    ensures Act(Then(first, second), perms) == Act(second, Act(first, perms))
  {
  }

  lemma ActingTwiceIsActingOnce(effect: Effect, perms: set<Perm>)
    ensures Act(effect, Act(effect, perms)) == Act(effect, perms)
  {
  }

  lemma ThereAreThreePerms(perms: set<Perm>)
    ensures perms <= ALL_PERMS
  {
    forall p | p in perms ensures p in ALL_PERMS {
      match p case Read => case Write => case Execute =>
    }
  }

  // ---------------------------------------------------------------- the meaning of a mode string

  /** The first position from i on whose character is not in chars (ScanPastChars). */
  function Span(s: string, i: nat, chars: CharSet): (j: nat)
    requires i <= |s|
    ensures i <= j <= |s|
    ensures j < |s| ==> !In(s[j], chars)
    decreases |s| - i
  {
    if i == |s| || !In(s[i], chars) then i else Span(s, i + 1, chars)
  }

  // Used on the three permission characters only.
  function PermOf(c: char): Perm {
    if c == 'r' then Read else if c == 'w' then Write else Execute
  }

  // The characters from i to j one after the other.
  function RunEffect(s: string, i: nat, j: nat, deleting: bool): Effect
    requires i <= j <= |s|
    decreases j
  {
    if i == j then NO_EFFECT else Then(RunEffect(s, i, j - 1, deleting), OnePerm(PermOf(s[j - 1]), deleting))
  }

  // What the parser does with one entry, or with several: the operations it has, the
  // position it stops at, and whether that is past the end of the string.
  datatype Entry = Entry(effect: Effect, end: nat, overruns: bool)

  function OperatorEffect(s: string, i: nat): Effect
    requires i <= |s|
  {
    if i < |s| && (s[i] == '+' || s[i] == '-') then NO_EFFECT else CLEARING
  }

  function OperatorEnd(s: string, i: nat): (j: nat)
    requires i <= |s|
    ensures i <= j <= |s|
  {
    if i < |s| && In(s[i], ValidOps) then i + 1 else i
  }

  predicate Deleting(s: string, i: nat)
    requires i <= |s|
  {
    i < |s| && s[i] == '-'
  }

  // Generic permissions, then perhaps native ones in parentheses.
  function PermsEntry(s: string, i: nat, deleting: bool): (e: Entry)
    requires i <= |s|
    ensures i <= e.end && (!e.overruns ==> e.end <= |s|)
  {
    var n := Span(s, i, PermChars);
    if n < |s| && s[n] == NATIVE_START then
      var m := Span(s, n + 1, PermChars);
      Entry(Then(RunEffect(s, i, n, deleting), RunEffect(s, n + 1, m, deleting)), m + 1, m == |s|)
    else Entry(RunEffect(s, i, n, deleting), n, false)
  }

  function FirstEntry(s: string, i: nat): (e: Entry)
    requires i <= |s|
    ensures i <= e.end && (!e.overruns ==> e.end <= |s|)
  {
    var rest := PermsEntry(s, OperatorEnd(s, i), Deleting(s, i));
    rest.(effect := Then(OperatorEffect(s, i), rest.effect))
  }

  // All entries from i on, separated by commas.
  function Entries(s: string, i: nat): (e: Entry)
    requires i <= |s|
    ensures i <= e.end && (!e.overruns ==> e.end <= |s|)
    decreases |s| - i
  {
    var first := FirstEntry(s, i);
    if first.overruns || first.end == |s| || s[first.end] != ',' then first
    else
      var rest := Entries(s, first.end + 1);
      rest.(effect := Then(first.effect, rest.effect))
  }

  predicate EndsMode(s: string, i: nat)
    requires i <= |s|
  {
    i == |s| || s[i] == ':'
  }

  /** The mode string that starts at position i, just behind the ':' in front of it. */
  function Mode(s: string, i: nat): (e: Entry)
    requires i <= |s|
    ensures !e.overruns ==> e.end <= |s|
  {
    if EndsMode(s, i) then Entry(CLEARING, i, false) else Entries(s, i)
  }

  // ---------------------------------------------------------------- the meaning in letters

  predicate IsLetter(c: char) {
    c == 'r' || c == 'w' || c == 'x'
  }

  /** Where the letters of an entry begin: an operator in front of them is optional. */
  function LettersFrom(s: string, i: nat): (o: nat)
    requires i <= |s|
    ensures i <= o <= |s|
  {
    if i < |s| && (s[i] == '=' || s[i] == '+' || s[i] == '-') then i + 1 else i
  }

  /** s[i..j] is an entry: perhaps an operator, letters, and perhaps native letters in parentheses from n on. */
  ghost predicate PlainEntry(s: string, i: nat, n: nat, j: nat) {
    && i <= |s| && LettersFrom(s, i) <= n <= j <= |s|
    && (forall k | LettersFrom(s, i) <= k < n :: IsLetter(s[k]))
    && (n < j ==> n + 1 < j && s[n] == '(' && s[j - 1] == ')' && forall k | n < k < j - 1 :: IsLetter(s[k]))
    && (n == j < |s| ==> s[j] == ':' || s[j] == ',')
  }

  /** One permission before and after an entry that names it or does not. */
  predicate Granted(operator: char, named: bool, before: bool, after: bool) {
    if operator == '+' then after <==> before || named
    else if operator == '-' then after <==> before && !named
    else after <==> named
  }

  /** The entry s[i..j] with its letters: read for r, write for w and execute for x. */
  predicate Means(s: string, i: nat, j: nat, before: set<Perm>, after: set<Perm>)
    requires i <= |s| && LettersFrom(s, i) <= j <= |s|
  {
    var operator := if i < j then s[i] else '=';
    var letters := s[LettersFrom(s, i)..j];
    && Granted(operator, 'r' in letters, Read in before, Read in after)
    && Granted(operator, 'w' in letters, Write in before, Write in after)
    && Granted(operator, 'x' in letters, Execute in before, Execute in after)
  }

  lemma {:induction false} RunOfLetters(s: string, i: nat, j: nat, deleting: bool, perms: set<Perm>, perm: Perm,
                                        letter: char)
    requires i <= j <= |s| && forall k | i <= k < j :: IsLetter(s[k])
    requires (perm == Read && letter == 'r') || (perm == Write && letter == 'w') || (perm == Execute && letter == 'x')
    ensures perm in Act(RunEffect(s, i, j, deleting), perms)
       <==> if deleting then perm in perms && letter !in s[i..j] else perm in perms || letter in s[i..j]
  {
    ThereAreThreePerms(perms);
    if i < j {
      RunOfLetters(s, i, j - 1, deleting, perms, perm, letter);
      ActsInTurn(RunEffect(s, i, j - 1, deleting), OnePerm(PermOf(s[j - 1]), deleting), perms);
      assert s[i..j] == s[i..j - 1] + [s[j - 1]];
    }
  }

  lemma {:induction false} LettersSpan(s: string, i: nat, j: nat)
    requires i <= j <= |s| && (forall k | i <= k < j :: IsLetter(s[k])) && (j < |s| ==> !IsLetter(s[j]))
    ensures Span(s, i, PermChars) == j
    decreases j - i
  {
    if i < j {
      LettersSpan(s, i + 1, j);
    }
  }

  lemma ShapeOfAnEntry(s: string, i: nat, n: nat, j: nat, deleting: bool)
    requires PlainEntry(s, i, n, j)
    ensures var o := LettersFrom(s, i);
            PermsEntry(s, o, deleting) ==
            Entry(if n < j then Then(RunEffect(s, o, n, deleting), RunEffect(s, n + 1, j - 1, deleting))
                  else RunEffect(s, o, n, deleting), j, false)
  {
    LettersSpan(s, LettersFrom(s, i), n);
    if n < j {
      LettersSpan(s, n + 1, j - 1);
    }
  }

  lemma LettersAndNativeLetters(s: string, o: nat, n: nat, j: nat, letter: char)
    requires o <= n && n + 1 < j <= |s| && s[n] != letter && s[j - 1] != letter
    ensures letter in s[o..j] <==> letter in s[o..n] || letter in s[n + 1..j - 1]
  {
    assert s[o..j] == s[o..n] + [s[n]] + s[n + 1..j - 1] + [s[j - 1]];
  }

  lemma LettersOfAnEntry(s: string, i: nat, n: nat, j: nat, deleting: bool, perms: set<Perm>, perm: Perm, letter: char)
    requires PlainEntry(s, i, n, j)
    requires (perm == Read && letter == 'r') || (perm == Write && letter == 'w') || (perm == Execute && letter == 'x')
    ensures var o := LettersFrom(s, i);
            var e := PermsEntry(s, o, deleting);
            && e.end == j && !e.overruns
            && (perm in Act(e.effect, perms) <==>
                if deleting then perm in perms && letter !in s[o..j] else perm in perms || letter in s[o..j])
  {
    var o := LettersFrom(s, i);
    ShapeOfAnEntry(s, i, n, j, deleting);
    RunOfLetters(s, o, n, deleting, perms, perm, letter);
    if n < j {
      LettersOfBothRuns(s, o, n, j, deleting, perms, perm, letter);
    }
  }

  lemma LettersOfBothRuns(s: string, o: nat, n: nat, j: nat, deleting: bool, perms: set<Perm>, perm: Perm,
                          letter: char)
    requires o <= n && n + 1 < j <= |s| && s[n] == '(' && s[j - 1] == ')'
    requires (forall k | o <= k < n :: IsLetter(s[k])) && forall k | n < k < j - 1 :: IsLetter(s[k])
    requires (perm == Read && letter == 'r') || (perm == Write && letter == 'w') || (perm == Execute && letter == 'x')
    ensures perm in Act(Then(RunEffect(s, o, n, deleting), RunEffect(s, n + 1, j - 1, deleting)), perms)
       <==> if deleting then perm in perms && letter !in s[o..j] else perm in perms || letter in s[o..j]
  {
    var first := RunEffect(s, o, n, deleting);
    RunOfLetters(s, o, n, deleting, perms, perm, letter);
    RunOfLetters(s, n + 1, j - 1, deleting, Act(first, perms), perm, letter);
    ActsInTurn(first, RunEffect(s, n + 1, j - 1, deleting), perms);
    LettersAndNativeLetters(s, o, n, j, letter);
  }

  /** What one entry does to a set of permissions, in terms of its operator and its letters. */
  lemma EntriesMeanTheirLetters(s: string, i: nat, n: nat, j: nat, perms: set<Perm>)
    requires PlainEntry(s, i, n, j)
    ensures FirstEntry(s, i).end == j && !FirstEntry(s, i).overruns
    ensures Means(s, i, j, perms, Act(FirstEntry(s, i).effect, perms))
  {
    var o := LettersFrom(s, i);
    var between := Act(OperatorEffect(s, i), perms);
    ThereAreThreePerms(perms);
    LettersOfAnEntry(s, i, n, j, Deleting(s, i), between, Read, 'r');
    LettersOfAnEntry(s, i, n, j, Deleting(s, i), between, Write, 'w');
    LettersOfAnEntry(s, i, n, j, Deleting(s, i), between, Execute, 'x');
    ActsInTurn(OperatorEffect(s, i), PermsEntry(s, o, Deleting(s, i)).effect, perms);
  }

  lemma MeaningIsUnique(s: string, i: nat, j: nat, before: set<Perm>, after: set<Perm>, other: set<Perm>)
    requires i <= |s| && LettersFrom(s, i) <= j <= |s|
    requires Means(s, i, j, before, after) && Means(s, i, j, before, other)
    ensures after == other
  {
    ThereAreThreePerms(after);
    ThereAreThreePerms(other);
  }

  /** A mode string of one entry means its letters. */
  lemma ModesMeanTheirLetters(s: string, i: nat, n: nat, j: nat, perms: set<Perm>)
    requires PlainEntry(s, i, n, j) && EndsMode(s, j)
    ensures !Mode(s, i).overruns && Means(s, i, j, perms, Act(Mode(s, i).effect, perms))
  {
    EntriesMeanTheirLetters(s, i, n, j, perms);
    if EndsMode(s, i) {
      assert j == i;
    }
  }

  /** Of several entries the first one acts, then the others. */
  lemma EntriesActInTurn(s: string, i: nat, n: nat, j: nat, perms: set<Perm>, between: set<Perm>)
    requires PlainEntry(s, i, n, j) && j < |s| && s[j] == ',' && Means(s, i, j, perms, between)
    ensures Act(Entries(s, i).effect, perms) == Act(Entries(s, j + 1).effect, between)
  {
    EntriesMeanTheirLetters(s, i, n, j, perms);
    MeaningIsUnique(s, i, j, perms, between, Act(FirstEntry(s, i).effect, perms));
    TheFirstActsFirst(s, i, perms);
  }

  lemma TheFirstActsFirst(s: string, i: nat, perms: set<Perm>)
    requires i <= |s| && !FirstEntry(s, i).overruns && FirstEntry(s, i).end < |s| && s[FirstEntry(s, i).end] == ','
    ensures var first := FirstEntry(s, i);
            Act(Entries(s, i).effect, perms) == Act(Entries(s, first.end + 1).effect, Act(first.effect, perms))
  {
    ActsInTurn(FirstEntry(s, i).effect, Entries(s, FirstEntry(s, i).end + 1).effect, perms);
  }

  // ---------------------------------------------------------------- the parser as written

  class Permset {
    var bits: set<Perm>

    constructor (bits: set<Perm>)
      ensures this.bits == bits
    {
      this.bits := bits;
    }

    method AddPerm(perm: Perm)
      modifies this
      ensures bits == Act(OnePerm(perm, false), old(bits))
    {
      ThereAreThreePerms(bits);
      bits := bits + {perm};
    }

    method DeletePerm(perm: Perm)
      modifies this
      ensures bits == Act(OnePerm(perm, true), old(bits))
    {
      ThereAreThreePerms(bits);
      bits := bits - {perm};
    }

    method ClearPerms()
      modifies this
      ensures bits == {}
    {
      bits := {};
    }
  }

  /** One of the two inner loops; returns where it stops. */
  method ParsePerms(mode: string, start: nat, perms: Permset, deleting: bool) returns (i: nat)
    requires start <= |mode|
    modifies perms
    ensures i == Span(mode, start, PermChars)
    ensures perms.bits == Act(RunEffect(mode, start, i, deleting), old(perms.bits))
  {
    i := start;
    ThereAreThreePerms(perms.bits);
    while i < |mode| && In(mode[i], PermChars)
      invariant start <= i <= |mode|
      invariant Span(mode, start, PermChars) == Span(mode, i, PermChars)
      invariant perms.bits == Act(RunEffect(mode, start, i, deleting), old(perms.bits))
    {
      ActsInTurn(RunEffect(mode, start, i, deleting), OnePerm(PermOf(mode[i]), deleting), old(perms.bits));
      if deleting {
        perms.DeletePerm(PermOf(mode[i]));
      } else {
        perms.AddPerm(PermOf(mode[i]));
      }
      i := i + 1;
    }
  }

  method ParseBothPerms(mode: string, start: nat, perms: Permset, deleting: bool) returns (i: nat)
    requires start <= |mode| && !PermsEntry(mode, start, deleting).overruns
    modifies perms
    ensures i == PermsEntry(mode, start, deleting).end
    ensures perms.bits == Act(PermsEntry(mode, start, deleting).effect, old(perms.bits))
  {
    i := ParsePerms(mode, start, perms, deleting);
    if i < |mode| && mode[i] == NATIVE_START {
      ghost var n := i;
      i := i + 1;
      i := ParsePerms(mode, i, perms, deleting);
      ActsInTurn(RunEffect(mode, start, n, deleting), RunEffect(mode, n + 1, i, deleting), old(perms.bits));
      i := i + 1;
    }
  }

  /** One turn of the outer loop. */
  method ParseEntry(mode: string, start: nat, perms: Permset) returns (i: nat)
    requires start <= |mode| && !FirstEntry(mode, start).overruns
    modifies perms
    ensures i == FirstEntry(mode, start).end
    ensures perms.bits == Act(FirstEntry(mode, start).effect, old(perms.bits))
  {
    i := start;
    var deleting := false;
    ThereAreThreePerms(perms.bits);
    if i < |mode| && mode[i] == '+' {
      i := i + 1;
    } else if i < |mode| && mode[i] == '-' {
      deleting := true;
      i := i + 1;
    } else {
      if i < |mode| && mode[i] == '=' {
        i := i + 1;
      }
      perms.ClearPerms();
    }
    assert perms.bits == Act(OperatorEffect(mode, start), old(perms.bits));
    i := ParseBothPerms(mode, i, perms, deleting);
    ActsInTurn(OperatorEffect(mode, start),
               PermsEntry(mode, OperatorEnd(mode, start), Deleting(mode, start)).effect, old(perms.bits));
  }

  /**
   * Every mode string acts by keeping some permissions and adding others; one entry adds, removes or
   * leaves what its letters say.
   */
  method ParseModePosixLinux(mode: string, start: nat, perms: Permset)
    requires start <= |mode| && !Mode(mode, start).overruns
    modifies perms
    ensures perms.bits == Act(Mode(mode, start).effect, old(perms.bits))
    ensures forall n, j | PlainEntry(mode, start, n, j) && EndsMode(mode, j) ::
              Means(mode, start, j, old(perms.bits), perms.bits)
  {
    forall n, j | PlainEntry(mode, start, n, j) && EndsMode(mode, j)
      ensures Means(mode, start, j, perms.bits, Act(Mode(mode, start).effect, perms.bits))
    {
      ModesMeanTheirLetters(mode, start, n, j, perms.bits);
    }
    if start == |mode| || mode[start] == ':' {
      perms.ClearPerms();
      return;
    }
    var i := start;
    var moreEntries := true;
    ghost var goal := Act(Entries(mode, start).effect, perms.bits);
    while moreEntries
      invariant moreEntries ==> i <= |mode| && Pending(mode, i, perms.bits, goal)
      invariant !moreEntries ==> perms.bits == goal
      decreases moreEntries, |mode| - i
    {
      PendingStep(mode, i, perms.bits, goal);
      i := ParseEntry(mode, i, perms);
      if i < |mode| && mode[i] == ',' {
        i := i + 1;
      } else {
        moreEntries := false;
      }
    }
  }

  // What the entries from i on still have to do to perms to reach goal.
  ghost predicate Pending(mode: string, i: nat, perms: set<Perm>, goal: set<Perm>)
    requires i <= |mode|
  {
    !Entries(mode, i).overruns && Act(Entries(mode, i).effect, perms) == goal
  }

  lemma PendingStep(mode: string, i: nat, perms: set<Perm>, goal: set<Perm>)
    requires i <= |mode| && Pending(mode, i, perms, goal)
    ensures var first := FirstEntry(mode, i);
            var after := Act(first.effect, perms);
            && !first.overruns
            && if first.end < |mode| && mode[first.end] == ',' then Pending(mode, first.end + 1, after, goal)
               else after == goal
  {
    var first := FirstEntry(mode, i);
    if first.end < |mode| && mode[first.end] == ',' {
      ActsInTurn(first.effect, Entries(mode, first.end + 1).effect, perms);
    }
  }
}
