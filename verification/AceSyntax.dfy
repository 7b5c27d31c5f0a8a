// The syntax check of verify_acl.c in front of the mode parser, and what passing it is
// worth to that parser.
module AceSyntax {
  import opened ModeStrings

  // ---------------------------------------------------------------- what the check accepts

  datatype Scan = Malformed | Ends(end: nat)

  function EntryScan(s: string, i: nat, nativePerms: CharSet): (r: Scan)
    requires i <= |s|
    ensures r.Ends? ==> i <= r.end <= |s|
  {
    var n := Span(s, Span(s, i, ValidOps), PermChars);
    if n < |s| && s[n] == NATIVE_START then
      var m := Span(s, n + 1, nativePerms);
      if m < |s| && s[m] == NATIVE_END then Ends(m + 1) else Malformed
    else Ends(n)
  }

  function EntriesScan(s: string, i: nat, nativePerms: CharSet): (r: Scan)
    requires i <= |s|
    ensures r.Ends? ==> i <= r.end <= |s| && EndsMode(s, r.end)
    decreases |s| - i
  {
    var first := EntryScan(s, i, nativePerms);
    if first.Malformed? || EndsMode(s, first.end) then first
    else if s[first.end] == ',' then EntriesScan(s, first.end + 1, nativePerms)
    else Malformed
  }

  function ModeScan(s: string, i: nat, nativePerms: CharSet): (r: Scan)
    requires i <= |s|
    ensures r.Ends? ==> i <= r.end <= |s| && EndsMode(s, r.end)
  {
    if EndsMode(s, i) then Ends(i) else EntriesScan(s, i, nativePerms)
  }

  predicate PermTypeValid(permType: string, denySupport: bool) {
    permType == "allow" || (permType == "deny" && denySupport)
  }

  /** The options the check derives from the type of the list. */
  datatype AclType = Generic | Posix

  function NativePerms(aclType: AclType): CharSet {
    if aclType == Posix then PermChars else NoChars
  }

  // Where the mode string of an entry starts, if its subject is in order.
  function SubjectScan(ace: string, aclType: AclType): (r: Scan)
    ensures r.Ends? ==> r.end <= |ace|
  {
    if "user:" <= ace then IdScan(ace, 5)
    else if "group:" <= ace then IdScan(ace, 6)
    else if "all:" <= ace then Ends(4)
    else if "mask:" <= ace && aclType == Posix then Ends(5)
    else Malformed
  }

  // The position behind the ':' that closes the id; an id is not empty.
  function IdScan(ace: string, i: nat): (r: Scan)
    requires i <= |ace|
    ensures r.Ends? ==> i < r.end <= |ace|
  {
    if i == |ace| || ace[i] == ':' then Malformed else ColonAfter(ace, i + 1)
  }

  function ColonAfter(ace: string, i: nat): (r: Scan)
    requires i <= |ace|
    ensures r.Ends? ==> i < r.end <= |ace| && ace[r.end - 1] == ':'
    ensures r.Ends? ==> forall k | i <= k < r.end - 1 :: ace[k] != ':'
    ensures r.Malformed? ==> forall k | i <= k < |ace| :: ace[k] != ':'
    decreases |ace| - i
  {
    if i == |ace| then Malformed else if ace[i] == ':' then Ends(i + 1) else ColonAfter(ace, i + 1)
  }

  predicate AceValid(ace: string, aclType: AclType) {
    var subject := SubjectScan(ace, aclType);
    subject.Ends? &&
    var mode := ModeScan(ace, subject.end, NativePerms(aclType));
    mode.Ends? && (mode.end == |ace| || PermTypeValid(ace[mode.end + 1..], false))
  }

  // ---------------------------------------------------------------- the check as written

  method CheckModeSyntax(s: string, start: nat, nativePerms: CharSet) returns (valid: bool, mode: nat)
    requires start <= |s|
    ensures valid <==> ModeScan(s, start, nativePerms).Ends?
    ensures valid ==> mode == ModeScan(s, start, nativePerms).end
  {
    valid, mode := false, start;
    if mode == |s| || s[mode] == ':' {
      return true, mode;
    }
    while true
      invariant start <= mode <= |s| && !valid
      invariant ModeScan(s, start, nativePerms) == EntriesScan(s, mode, nativePerms)
      decreases |s| - mode
    {
      var wellFormed;
      wellFormed, mode := CheckModeEntry(s, mode, nativePerms);
      if !wellFormed {
        break;
      }
      if mode == |s| || s[mode] == ':' {
        valid := true;
        break;
      } else if s[mode] == ',' {
        mode := mode + 1;
      } else {
        break;
      }
    }
  }

  // One turn of the loop of CheckModeSyntax, up to the look at what follows.
  method CheckModeEntry(s: string, start: nat, nativePerms: CharSet) returns (valid: bool, mode: nat)
    requires start <= |s|
    ensures valid <==> EntryScan(s, start, nativePerms).Ends?
    ensures start <= mode && (valid ==> mode == EntryScan(s, start, nativePerms).end)
  {
    mode := Span(s, start, ValidOps);
    mode := Span(s, mode, PermChars);
    if mode < |s| && s[mode] == NATIVE_START {
      mode := Span(s, mode + 1, nativePerms);
      if mode == |s| || s[mode] != NATIVE_END {
        return false, mode;
      }
      mode := mode + 1;
    }
    return true, mode;
  }

  /** The source reads past the end of an ACE that stops right behind "user:" or "group:". */
  method CheckACESyntax(ace: string, aclType: AclType) returns (valid: bool)
    requires ace != "user:" && ace != "group:"
    ensures valid <==> AceValid(ace, aclType)
  {
    var str, chkid := 0, false;
    if "user:" <= ace {
      str, chkid := 5, true;
    } else if "group:" <= ace {
      str, chkid := 6, true;
    } else if "all:" <= ace {
      str := 4;
    } else if "mask:" <= ace {
      if aclType == Posix {
        str := 5;
      } else {
        return false;
      }
    } else {
      return false;
    }
    if chkid {
      if ace[str] == ':' {
        return false;
      }
      ghost var id := str;
      while true
        invariant id <= str < |ace|
        invariant IdScan(ace, id) == ColonAfter(ace, str + 1)
        decreases |ace| - str
      {
        str := str + 1;
        if str < |ace| && ace[str] == ':' {
          str := str + 1;
          break;
        } else if str == |ace| {
          return false;
        }
      }
      assert IdScan(ace, id) == Ends(str);
    }
    assert SubjectScan(ace, aclType) == Ends(str);
    var validMode, mode := CheckModeSyntax(ace, str, NativePerms(aclType));
    if !validMode {
      return false;
    }
    if mode == |ace| {
      return true;
    }
    return PermTypeValid(ace[mode + 1..], false);
  }

  /** The two loops of CheckACLSyntax over the access and the default entries. */
  method CheckACLSyntax(entries: seq<string>, defaults: seq<string>, aclType: AclType) returns (valid: bool)
    requires forall ace | ace in entries + defaults :: ace != "user:" && ace != "group:"
    ensures valid <==> ListsPass(entries, defaults, aclType)
  {
    valid := true;
    var i := 0;
    while i < |entries|
      invariant 0 <= i <= |entries| && valid
      invariant forall k | 0 <= k < i :: AceValid(entries[k], aclType)
    {
      assert entries[i] in entries + defaults;
      valid := CheckACESyntax(entries[i], aclType);
      if !valid {
        break;
      }
      i := i + 1;
    }
    i := 0;
    while i < |defaults|
      invariant 0 <= i <= |defaults|
      invariant i == 0 ==> (valid <==> AllValid(entries, aclType))
      invariant i > 0 ==> valid
      invariant forall k | 0 <= k < i :: AceValid(defaults[k], aclType)
    {
      assert defaults[i] in entries + defaults;
      valid := CheckACESyntax(defaults[i], aclType);
      if !valid {
        break;
      }
      i := i + 1;
    }
  }

  predicate AllValid(entries: seq<string>, aclType: AclType) {
    forall k | 0 <= k < |entries| :: AceValid(entries[k], aclType)
  }

  // The verdict on the access entries is overwritten as soon as there is a default entry.
  predicate ListsPass(entries: seq<string>, defaults: seq<string>, aclType: AclType) {
    if defaults == [] then AllValid(entries, aclType) else AllValid(defaults, aclType)
  }

  /** With any default entry the verdict does not depend on the access entries. */
  lemma DefaultsDecide(entries: seq<string>, others: seq<string>, defaults: seq<string>, aclType: AclType)
    requires defaults != []
    ensures ListsPass(entries, defaults, aclType) <==> ListsPass(others, defaults, aclType)
  {
  }

  /**
   * Whatever the access entries are, a passed check means that both lists are valid exactly when
   * there are no defaults to take the place of its first verdict, or they do not pass themselves.
   */
  lemma CheckCoversBothListsExactly(defaults: seq<string>, aclType: AclType)
    ensures (forall entries :: ListsPass(entries, defaults, aclType) ==>
               AllValid(entries, aclType) && AllValid(defaults, aclType))
       <==> defaults == [] || !AllValid(defaults, aclType)
  {
    NonsensePasses(aclType);
    assert ListsPass(["nonsense"], defaults, aclType) <==> defaults != [] && AllValid(defaults, aclType);
  }

  /** The entry "nonsense" passes in front of the default "all:r". */
  lemma NonsensePasses(aclType: AclType)
    ensures !AceValid("nonsense", aclType) && AceValid("all:r", aclType)
    ensures ListsPass(["nonsense"], ["all:r"], aclType) && !AllValid(["nonsense"], aclType)
  {
    var ace := "nonsense";
    assert !("user:" <= ace) && !("group:" <= ace) && !("all:" <= ace) && !("mask:" <= ace) by {
      assert ace[0] == 'n';
    }
    var all := "all:r";
    assert all[0] == 'a' && all[..4] == "all:";
    assert Span(all, 4, ValidOps) == 4;
    assert Span(all, 5, PermChars) == 5;
    assert EntryScan(all, 4, NativePerms(aclType)) == Ends(5);
    assert ["nonsense"][0] == ace;
  }

  // ---------------------------------------------------------------- the id of an entry

  /** The position behind the last one that the scan of the id from i on looks at; |ace| is the terminator. */
  function IdLooksTo(ace: string, i: nat): nat
    requires i <= |ace|
  {
    if i < |ace| && ace[i] == ':' then i + 1 else LooksFrom(ace, i + 1)
  }

  // Each turn steps on before it looks; behind the terminator nothing says where it would stop.
  function LooksFrom(ace: string, i: nat): nat
    decreases |ace| - i
  {
    if i >= |ace| || ace[i] == ':' then i + 1 else LooksFrom(ace, i + 1)
  }

  lemma {:induction false} LooksStayInside(ace: string, i: nat)
    requires i <= |ace|
    ensures LooksFrom(ace, i) <= |ace| + 1
    decreases |ace| - i
  {
    if i < |ace| && ace[i] != ':' {
      LooksStayInside(ace, i + 1);
    }
  }

  /** The scan stays inside the string exactly when something follows "user:" or "group:". */
  lemma IdScanStaysInsideExactly(ace: string)
    ensures "user:" <= ace ==> (IdLooksTo(ace, 5) <= |ace| + 1 <==> ace != "user:")
    ensures "group:" <= ace ==> (IdLooksTo(ace, 6) <= |ace| + 1 <==> ace != "group:")
  {
    if "user:" <= ace && |ace| > 5 {
      LooksStayInside(ace, 6);
    }
    if "group:" <= ace && |ace| > 6 {
      LooksStayInside(ace, 7);
    }
  }

  // ---------------------------------------------------------------- what a passed check is worth

  // No operator may be followed directly by another one.
  ghost predicate SingleOperators(s: string, i: nat, nativePerms: CharSet)
    requires i <= |s|
    decreases |s| - i
  {
    Span(s, i, ValidOps) <= i + 1 &&
    var first := EntryScan(s, i, nativePerms);
    first.Ends? && first.end < |s| && s[first.end] == ',' ==> SingleOperators(s, first.end + 1, nativePerms)
  }

  lemma NothingNativeScansTheSame(s: string, i: nat)
    requires i < |s| && s[i] == NATIVE_END
    ensures Span(s, i, NoChars) == i && Span(s, i, PermChars) == i
  {
  }

  // One entry: with at most one operator the parser goes as far as the check, with more it
  // stops at the second one.
  lemma EntryReadAsChecked(s: string, i: nat, nativePerms: CharSet)
    requires i <= |s| && (nativePerms == NoChars || nativePerms == PermChars)
    requires EntryScan(s, i, nativePerms).Ends?
    ensures var checked, read := EntryScan(s, i, nativePerms).end, FirstEntry(s, i);
            && !read.overruns
            && (if Span(s, i, ValidOps) <= i + 1 then read.end == checked
                else read.end == i + 1 < checked && In(s[i + 1], ValidOps))
  {
    if Span(s, i, ValidOps) <= i + 1 {
      OneOperatorReadAsChecked(s, i, nativePerms);
    } else {
      TwoOperatorsAreCut(s, i, nativePerms);
    }
  }

  lemma OneOperatorReadAsChecked(s: string, i: nat, nativePerms: CharSet)
    requires i <= |s| && (nativePerms == NoChars || nativePerms == PermChars)
    requires EntryScan(s, i, nativePerms).Ends? && Span(s, i, ValidOps) <= i + 1
    ensures !FirstEntry(s, i).overruns && FirstEntry(s, i).end == EntryScan(s, i, nativePerms).end
  {
    var a := Span(s, i, ValidOps);
    SpanOfAtMostOne(s, i, ValidOps);
    var n := Span(s, a, PermChars);
    if n < |s| && s[n] == NATIVE_START && nativePerms == NoChars {
      SpanOfNothing(s, n + 1);
      NothingNativeScansTheSame(s, n + 1);
    }
  }

  lemma TwoOperatorsAreCut(s: string, i: nat, nativePerms: CharSet)
    requires i <= |s| && (nativePerms == NoChars || nativePerms == PermChars)
    requires EntryScan(s, i, nativePerms).Ends? && Span(s, i, ValidOps) > i + 1
    ensures var checked, read := EntryScan(s, i, nativePerms).end, FirstEntry(s, i);
            !read.overruns && read.end == i + 1 < checked && In(s[i + 1], ValidOps)
  {
    SpannedCharsAreIn(s, i, ValidOps, i);
    SpannedCharsAreIn(s, i, ValidOps, i + 1);
    assert OperatorEnd(s, i) == i + 1;
    assert Span(s, i + 1, PermChars) == i + 1;
  }

  lemma {:induction false} SpannedCharsAreIn(s: string, i: nat, chars: CharSet, k: nat)
    requires i <= k < |s| && k < Span(s, i, chars)
    ensures In(s[k], chars)
    decreases |s| - i
  {
    if i < k {
      SpannedCharsAreIn(s, i + 1, chars, k);
    }
  }

  lemma SpanOfAtMostOne(s: string, i: nat, chars: CharSet)
    requires i <= |s| && Span(s, i, chars) <= i + 1
    ensures Span(s, i, chars) == if i < |s| && In(s[i], chars) then i + 1 else i
  {
  }

  lemma SpanOfNothing(s: string, i: nat)
    requires i <= |s|
    ensures Span(s, i, NoChars) == i
  {
  }

  lemma ScanUnfolds(s: string, i: nat, nativePerms: CharSet)
    requires i <= |s| && EntriesScan(s, i, nativePerms).Ends?
    ensures var first := EntryScan(s, i, nativePerms);
            && first.Ends?
            && if EndsMode(s, first.end) then EntriesScan(s, i, nativePerms) == first
               else && s[first.end] == ','
                    && EntriesScan(s, i, nativePerms) == EntriesScan(s, first.end + 1, nativePerms)
  {
  }

  lemma EntriesStopOrGoOn(s: string, i: nat)
    requires i <= |s| && !FirstEntry(s, i).overruns
    ensures var first := FirstEntry(s, i);
            if first.end < |s| && s[first.end] == ',' then
              && Entries(s, i).end == Entries(s, first.end + 1).end
              && Entries(s, i).overruns == Entries(s, first.end + 1).overruns
              && Entries(s, i).effect == Then(first.effect, Entries(s, first.end + 1).effect)
            else Entries(s, i) == first
  {
  }

  lemma {:induction false} EntriesReadAsChecked(s: string, i: nat, nativePerms: CharSet)
    requires i <= |s| && (nativePerms == NoChars || nativePerms == PermChars)
    requires EntriesScan(s, i, nativePerms).Ends?
    ensures !Entries(s, i).overruns
    ensures Entries(s, i).end == EntriesScan(s, i, nativePerms).end <==> SingleOperators(s, i, nativePerms)
    decreases |s| - i
  {
    if Span(s, i, ValidOps) > i + 1 {
      StopsAtSecondOperator(s, i, nativePerms);
    } else {
      ScanUnfolds(s, i, nativePerms);
      var e := SameEnd(s, i, nativePerms);
      if EndsMode(s, e) {
        ReadsTheLastEntry(s, i, e, nativePerms);
      } else {
        ReadsOn(s, i, e, nativePerms);
        EntriesReadAsChecked(s, e + 1, nativePerms);
      }
    }
  }

  // Without a second operator, check and parser move on together.
  lemma ReadsTheLastEntry(s: string, i: nat, e: nat, nativePerms: CharSet)
    requires i <= e <= |s| && EntriesScan(s, i, nativePerms).Ends? && Span(s, i, ValidOps) <= i + 1
    requires EntryScan(s, i, nativePerms) == Ends(e) && FirstEntry(s, i).end == e && !FirstEntry(s, i).overruns
    requires EndsMode(s, e)
    ensures !Entries(s, i).overruns && Entries(s, i).end == EntriesScan(s, i, nativePerms).end
    ensures SingleOperators(s, i, nativePerms)
  {
    ScanGoesOn(s, i, e, nativePerms);
    EntriesStop(s, i, e);
    OperatorsOfTheLast(s, i, e, nativePerms);
  }

  lemma ReadsOn(s: string, i: nat, e: nat, nativePerms: CharSet)
    requires i <= e <= |s| && EntriesScan(s, i, nativePerms).Ends? && Span(s, i, ValidOps) <= i + 1
    requires EntryScan(s, i, nativePerms) == Ends(e) && FirstEntry(s, i).end == e && !FirstEntry(s, i).overruns
    requires !EndsMode(s, e)
    ensures e < |s| && EntriesScan(s, i, nativePerms) == EntriesScan(s, e + 1, nativePerms)
    ensures Entries(s, i).end == Entries(s, e + 1).end && Entries(s, i).overruns == Entries(s, e + 1).overruns
    ensures SingleOperators(s, i, nativePerms) <==> SingleOperators(s, e + 1, nativePerms)
  {
    ScanGoesOn(s, i, e, nativePerms);
    EntriesGoOn(s, i, e);
    OperatorsOfTheRest(s, i, e, nativePerms);
  }

  lemma SameEnd(s: string, i: nat, nativePerms: CharSet) returns (e: nat)
    requires i <= |s| && (nativePerms == NoChars || nativePerms == PermChars)
    requires EntryScan(s, i, nativePerms).Ends? && Span(s, i, ValidOps) <= i + 1
    ensures EntryScan(s, i, nativePerms) == Ends(e) && i <= e <= |s|
    ensures FirstEntry(s, i).end == e && !FirstEntry(s, i).overruns
  {
    EntryReadAsChecked(s, i, nativePerms);
    e := FirstEntry(s, i).end;
  }

  lemma EntriesStop(s: string, i: nat, e: nat)
    requires i <= e <= |s| && FirstEntry(s, i).end == e && !FirstEntry(s, i).overruns && EndsMode(s, e)
    ensures Entries(s, i).end == e && !Entries(s, i).overruns
  {
    EntriesStopOrGoOn(s, i);
  }

  lemma EntriesGoOn(s: string, i: nat, e: nat)
    requires i <= e < |s| && FirstEntry(s, i).end == e && !FirstEntry(s, i).overruns && s[e] == ','
    ensures Entries(s, i).end == Entries(s, e + 1).end && Entries(s, i).overruns == Entries(s, e + 1).overruns
  {
    EntriesStopOrGoOn(s, i);
  }

  lemma StopsAtSecondOperator(s: string, i: nat, nativePerms: CharSet)
    requires i <= |s| && (nativePerms == NoChars || nativePerms == PermChars)
    requires EntriesScan(s, i, nativePerms).Ends? && Span(s, i, ValidOps) > i + 1
    ensures !Entries(s, i).overruns && Entries(s, i).end < EntriesScan(s, i, nativePerms).end
    ensures !SingleOperators(s, i, nativePerms)
  {
    EntryReadAsChecked(s, i, nativePerms);
    ScanUnfolds(s, i, nativePerms);
    EntriesStopOrGoOn(s, i);
  }

  lemma ScanGoesOn(s: string, i: nat, e: nat, nativePerms: CharSet)
    requires i <= e <= |s| && EntriesScan(s, i, nativePerms).Ends? && EntryScan(s, i, nativePerms) == Ends(e)
    ensures EndsMode(s, e) ==> EntriesScan(s, i, nativePerms) == Ends(e)
    ensures !EndsMode(s, e) ==>
              s[e] == ',' && EntriesScan(s, i, nativePerms) == EntriesScan(s, e + 1, nativePerms)
  {
  }

  lemma OperatorsOfTheLast(s: string, i: nat, e: nat, nativePerms: CharSet)
    requires i <= e <= |s| && EntryScan(s, i, nativePerms) == Ends(e) && EndsMode(s, e)
    ensures SingleOperators(s, i, nativePerms) <==> Span(s, i, ValidOps) <= i + 1
  {
  }

  lemma OperatorsOfTheRest(s: string, i: nat, e: nat, nativePerms: CharSet)
    requires i <= e < |s| && EntryScan(s, i, nativePerms) == Ends(e) && s[e] == ','
    requires Span(s, i, ValidOps) <= i + 1
    ensures SingleOperators(s, i, nativePerms) <==> SingleOperators(s, e + 1, nativePerms)
  {
  }

  // The parser never leaves a mode string that passed the check, and it reads all of it
  // exactly when no entry has two operators: the rest of such an entry is silently ignored.
  lemma CheckedModesAreReadInBounds(s: string, i: nat, aclType: AclType)
    requires i <= |s| && ModeScan(s, i, NativePerms(aclType)).Ends?
    ensures !Mode(s, i).overruns
    ensures Mode(s, i).end == ModeScan(s, i, NativePerms(aclType)).end
            <==> EndsMode(s, i) || SingleOperators(s, i, NativePerms(aclType))
  {
    if !EndsMode(s, i) {
      EntriesReadAsChecked(s, i, NativePerms(aclType));
    }
  }

  // A checked mode string that the parser reads to the end and that ends in a comma denies
  // everything, whatever stands in front of the comma.
  lemma {:induction false} TrailingCommaClears(s: string, i: nat, nativePerms: CharSet, perms: set<Perm>)
    requires i <= |s| && (nativePerms == NoChars || nativePerms == PermChars)
    requires EntriesScan(s, i, nativePerms).Ends? && SingleOperators(s, i, nativePerms)
    requires var end := EntriesScan(s, i, nativePerms).end; end == i || s[end - 1] == ','
    ensures Act(Entries(s, i).effect, perms) == {}
    decreases |s| - i
  {
    var e := FirstOfSingles(s, i, nativePerms);
    if EndsMode(s, e) {
      LastEntryIsEmpty(s, i, e, nativePerms);
      NothingReadClears(s, i);
      assert Act(CLEARING, perms) == {};
    } else {
      TrailingCommaClears(s, e + 1, nativePerms, Act(FirstEntry(s, i).effect, perms));
      LastEntryDecides(s, i, e, perms);
    }
  }

  lemma FirstOfSingles(s: string, i: nat, nativePerms: CharSet) returns (e: nat)
    requires i <= |s| && (nativePerms == NoChars || nativePerms == PermChars)
    requires EntriesScan(s, i, nativePerms).Ends? && SingleOperators(s, i, nativePerms)
    ensures i <= e <= |s| && EntryScan(s, i, nativePerms) == Ends(e)
    ensures FirstEntry(s, i).end == e && !FirstEntry(s, i).overruns
    ensures EndsMode(s, e) ==> EntriesScan(s, i, nativePerms) == Ends(e)
    ensures !EndsMode(s, e) ==>
              && e < |s| && s[e] == ',' && SingleOperators(s, e + 1, nativePerms)
              && EntriesScan(s, i, nativePerms) == EntriesScan(s, e + 1, nativePerms)
  {
    ScanUnfolds(s, i, nativePerms);
    e := SameEnd(s, i, nativePerms);
    ScanGoesOn(s, i, e, nativePerms);
  }

  lemma LastEntryIsEmpty(s: string, i: nat, e: nat, nativePerms: CharSet)
    requires i <= e <= |s| && EntryScan(s, i, nativePerms) == Ends(e) && EndsMode(s, e)
    requires e == i || s[e - 1] == ','
    ensures EndsMode(s, i)
  {
    EntryDoesNotEndInComma(s, i, nativePerms);
  }

  lemma NothingReadClears(s: string, i: nat)
    requires i <= |s| && EndsMode(s, i)
    ensures Entries(s, i).effect == CLEARING
  {
    assert Span(s, i, PermChars) == i;
  }

  lemma LastEntryDecides(s: string, i: nat, e: nat, perms: set<Perm>)
    requires i <= e < |s| && FirstEntry(s, i).end == e && !FirstEntry(s, i).overruns && s[e] == ','
    requires Act(Entries(s, e + 1).effect, Act(FirstEntry(s, i).effect, perms)) == {}
    ensures Act(Entries(s, i).effect, perms) == {}
  {
    EntriesStopOrGoOn(s, i);
    ActsInTurn(FirstEntry(s, i).effect, Entries(s, e + 1).effect, perms);
  }

  lemma EntryDoesNotEndInComma(s: string, i: nat, nativePerms: CharSet)
    requires i <= |s| && EntryScan(s, i, nativePerms).Ends?
    ensures var end := EntryScan(s, i, nativePerms).end; end > i ==> s[end - 1] != ','
  {
    var end := EntryScan(s, i, nativePerms).end;
    var a := Span(s, i, ValidOps);
    if i < end <= a {
      SpannedCharsAreIn(s, i, ValidOps, end - 1);
    } else if a < end == Span(s, a, PermChars) {
      SpannedCharsAreIn(s, a, PermChars, end - 1);
    }
  }

  /** "+-r" passes the check, but only its first character is read, and nothing changes. */
  lemma PlusMinusIsCutShort(aclType: AclType, perms: set<Perm>)
    ensures ModeScan("+-r", 0, NativePerms(aclType)) == Ends(3)
    ensures Mode("+-r", 0).end == 1 && Act(Mode("+-r", 0).effect, perms) == perms
  {
    var s := "+-r";
    assert Span(s, 2, ValidOps) == 2 && Span(s, 1, ValidOps) == 2 && Span(s, 0, ValidOps) == 2;
    assert Span(s, 3, PermChars) == 3 && Span(s, 2, PermChars) == 3;
    assert EntryScan(s, 0, NativePerms(aclType)) == Ends(3);
    assert Span(s, 1, PermChars) == 1;
    assert RunEffect(s, 1, 1, false) == NO_EFFECT;
    ThereAreThreePerms(perms);
    assert perms * ALL_PERMS == perms;
  }

  /** "rw," passes the check, is read to its end, and takes every permission away. */
  lemma TrailingCommaAfterReadWrite(aclType: AclType, perms: set<Perm>)
    ensures ModeScan("rw,", 0, NativePerms(aclType)) == Ends(3)
    ensures Mode("rw,", 0).end == 3 && Act(Mode("rw,", 0).effect, perms) == {}
  {
    var s := "rw,";
    var native := NativePerms(aclType);
    assert Span(s, 0, ValidOps) == 0 && Span(s, 3, ValidOps) == 3;
    assert Span(s, 2, PermChars) == 2 && Span(s, 1, PermChars) == 2 && Span(s, 0, PermChars) == 2;
    assert Span(s, 3, PermChars) == 3;
    assert EntryScan(s, 0, native) == Ends(2) && EntryScan(s, 3, native) == Ends(3);
    assert EntriesScan(s, 3, native) == Ends(3) == EntriesScan(s, 0, native);
    assert SingleOperators(s, 3, native);
    assert SingleOperators(s, 0, native);
    CheckedModesAreReadInBounds(s, 0, aclType);
    TrailingCommaClears(s, 0, native, perms);
  }
}
