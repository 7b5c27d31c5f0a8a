// What the promised entries of acl_posix.c come to in the repaired list, in the words of the promise.
module AclMeaning {
  import opened AceSyntax
  import opened AclRepair
  import opened ModeStrings
  import opened Options

  // ---------------------------------------------------------------- whom an entry is about

  lemma ColonThere(ace: string, i: nat, c: nat)
    requires i <= c < |ace| && ace[c] == ':' && ':' !in ace[i..c]
    ensures IdEnd(ace, i) == c
  {
    assert forall k | i <= k < c :: ace[k] == ace[i..c][k - i];
  }

  /** "user:id:" is the entry of that user, "user:*:" that of the owner; nobody else is meant. */
  lemma UsersByName(id: string, mode: string, names: Names)
    requires ':' !in id
    ensures var subject := ParseEntityPosixLinux("user:" + id + ":" + mode, names);
            subject == if id == "*" then Subject(UserObj, 5 + |id|)
                       else if id in names.users then Subject(User(names.users[id]), 5 + |id|)
                       else Unknown
  {
    var ace := "user:" + id + ":" + mode;
    assert ace[5..5 + |id|] == id && ace[5 + |id|] == ':' && "user:" <= ace;
    ColonThere(ace, 5, 5 + |id|);
  }

  /** "group:id:" is the entry of that group, "group:*:" that of the owning group. */
  lemma GroupsByName(id: string, mode: string, names: Names)
    requires ':' !in id
    ensures var subject := ParseEntityPosixLinux("group:" + id + ":" + mode, names);
            subject == if id == "*" then Subject(GroupObj, 6 + |id|)
                       else if id in names.groups then Subject(Group(names.groups[id]), 6 + |id|)
                       else Unknown
  {
    var ace := "group:" + id + ":" + mode;
    assert ace[6..6 + |id|] == id && ace[6 + |id|] == ':' && "group:" <= ace && ace[0] == 'g';
    ColonThere(ace, 6, 6 + |id|);
  }

  /** "all:" is the entry of the others, and "mask:" that of the mask. */
  lemma OthersAndMask(mode: string, names: Names)
    ensures ParseEntityPosixLinux("all:" + mode, names) == Subject(Other, 3)
    ensures ParseEntityPosixLinux("mask:" + mode, names) == Subject(Mask, 4)
  {
    var all, mask := "all:" + mode, "mask:" + mode;
    assert all[0] == 'a' && "all:" <= all;
    assert mask[0] == 'm' && "mask:" <= mask;
  }

  // ---------------------------------------------------------------- what passes the check

  /** Where the check finds the mode string: behind a non-empty id, "all:", or for Posix lists "mask:". */
  lemma SubjectsAreFound(id: string, mode: string, aclType: AclType)
    requires ':' !in id
    ensures SubjectScan("user:" + id + ":" + mode, aclType) == if id == "" then Malformed else Ends(6 + |id|)
    ensures SubjectScan("group:" + id + ":" + mode, aclType) == if id == "" then Malformed else Ends(7 + |id|)
    ensures SubjectScan("all:" + mode, aclType) == Ends(4)
    ensures SubjectScan("mask:" + mode, aclType) == if aclType == Posix then Ends(5) else Malformed
  {
    IdIsScanned("user:", id, mode);
    IdIsScanned("group:", id, mode);
    var user, group, all, mask := "user:" + id + ":" + mode, "group:" + id + ":" + mode, "all:" + mode, "mask:" + mode;
    assert "user:" <= user && "group:" <= group && group[0] == 'g';
    assert all[0] == 'a' && "all:" <= all && mask[0] == 'm' && "mask:" <= mask;
  }

  lemma IdIsScanned(front: string, id: string, mode: string)
    requires ':' !in id
    ensures IdScan(front + id + ":" + mode, |front|) == if id == "" then Malformed else Ends(|front| + |id| + 1)
  {
    var ace := front + id + ":" + mode;
    assert forall k | 0 <= k < |id| :: ace[|front| + k] == id[k];
    assert ace[|front| + |id|] == ':';
    assert forall k | |front| <= k < |front| + |id| :: ace[k] == id[k - |front|];
  }

  lemma PlainEntriesAreScanned(ace: string, i: nat, n: nat, j: nat, nativePerms: CharSet)
    requires PlainEntry(ace, i, n, j) && (nativePerms == PermChars || nativePerms == NoChars)
    ensures EntryScan(ace, i, nativePerms)
         == if nativePerms == PermChars || n == j || j == n + 2 then Ends(j) else Malformed
  {
    var o := LettersFrom(ace, i);
    assert Span(ace, o, ValidOps) == o && Span(ace, i, ValidOps) == o;
    LettersSpan(ace, o, n);
    if n < j {
      LettersSpan(ace, n + 1, j - 1);
    }
  }

  /**
   * An entry with one operator at most, letters, and native letters in parentheses passes exactly if
   * the type of list knows the native ones and nothing but ":allow" follows.
   */
  lemma PlainEntriesPassExactly(ace: string, i: nat, n: nat, j: nat, aclType: AclType)
    requires SubjectScan(ace, aclType) == Ends(i) && PlainEntry(ace, i, n, j) && EndsMode(ace, j)
    ensures AceValid(ace, aclType)
       <==> (aclType == Posix || n == j || j == n + 2) && (j == |ace| || ace[j + 1..] == "allow")
  {
    if !EndsMode(ace, i) {
      PlainEntriesAreScanned(ace, i, n, j, NativePerms(aclType));
    }
  }

  // ---------------------------------------------------------------- what it leaves

  /** An entry with this subject and these letters, perhaps an operator in front of them. */
  ghost predicate PlainAce(ace: string, names: Names, key: Key, next: nat) {
    && ParseEntityPosixLinux(ace, names) == Subject(key, next) && next < |ace| && ace[next] == ':'
    && PlainEntry(ace, next + 1, |ace|, |ace|)
  }

  lemma ParsedAlone(ace: string, names: Names, table: Table)
    requires ParseAce(ace, names).Some?
    ensures ParseAces([ace], names) == Some([ParseAce(ace, names).value])
    ensures ApplyChanges(table, [ParseAce(ace, names).value]) == ApplyChange(table, ParseAce(ace, names).value)
  {
    var change := ParseAce(ace, names).value;
    assert [ace][..0] == [] && [change][..0] == [];
    assert ParseAces([], names) == Some([]) && [] + [change] == [change];
  }

  /**
   * The list that one entry asks for: its key has what the letters say, from what it had before
   * (nothing for the method "overwrite"). Of the other keys all but the mask have what they had, or
   * are gone.
   */
  lemma OneEntryMeansItsLetters(ace: string, names: Names, key: Key, next: nat, found: Table, how: AclMethod)
    requires PlainAce(ace, names, key, next)
    ensures ReadInBounds(ace, names) && ParseAces([ace], names).Some?
    ensures var target := Target(found, ParseAces([ace], names).value, how);
            && key in target
            && Means(ace, next + 1, |ace|, if how == Append then PermsOf(found, key) else {}, target[key])
            && forall other | other != key && other != Mask ::
                 if how == Append then
                   (other in target <==> other in found) && PermsOf(target, other) == PermsOf(found, other)
                 else other !in target
  {
    var table := if how == Append then found else map[];
    ModesMeanTheirLetters(ace, next + 1, |ace|, |ace|, PermsOf(table, key));
    ParsedAlone(ace, names, table);
    var change := ParseAce(ace, names).value;
    if key == Mask {
      assert [change][0].key == Mask;
    }
  }

  /** "user:*:=r" leaves the owner exactly the permission to read. */
  lemma OwnerMayRead(names: Names, found: Table, how: AclMethod)
    ensures ReadInBounds("user:*:=r", names) && ParseAces(["user:*:=r"], names).Some?
    ensures var target := Target(found, ParseAces(["user:*:=r"], names).value, how);
            UserObj in target && target[UserObj] == {Read}
  {
    var ace := "user:*:=r";
    UsersByName("*", "=r", names);
    assert "user:" + "*" + ":" + "=r" == ace;
    assert LettersFrom(ace, 7) == 8 && ace[8..9] == "r";
    OneEntryMeansItsLetters(ace, names, UserObj, 6, found, how);
    ThereAreThreePerms(Target(found, ParseAces([ace], names).value, how)[UserObj]);
  }

  // ---------------------------------------------------------------- the keys no entry is about

  /** Keys that no entry is about stay for the method "append" and go for "overwrite". */
  lemma UnmentionedKeys(found: Table, changes: seq<Change>, key: Key)
    requires key != Mask && forall i | 0 <= i < |changes| :: changes[i].key != key
    ensures key in Target(found, changes, Append) <==> key in found
    ensures key in found ==> Target(found, changes, Append)[key] == found[key]
    ensures key !in Target(found, changes, Overwrite)
  {
    ChangesActKeyByKey(found, changes, key);
    ChangesActKeyByKey(map[], changes, key);
    NoEffectOn(changes, key);
    ThereAreThreePerms(PermsOf(found, key));
  }

  lemma {:induction false} NoEffectOn(changes: seq<Change>, key: Key)
    requires forall i | 0 <= i < |changes| :: changes[i].key != key
    ensures EffectOn(changes, key) == NO_EFFECT
  {
    if changes != [] {
      NoEffectOn(changes[..|changes| - 1], key);
    }
  }

  /**
   * Unless a mask is promised, the mask has exactly the permissions that a named user, the owning
   * group or a named group has; owner and others do not count.
   */
  lemma MaskIsTheUnion(found: Table, changes: seq<Change>, how: AclMethod, perm: Perm)
    requires forall i | 0 <= i < |changes| :: changes[i].key != Mask
    ensures Mask in Target(found, changes, how)
    ensures perm in Target(found, changes, how)[Mask]
       <==> exists key: Key :: (key.User? || key == GroupObj || key.Group?)
                            && perm in PermsOf(Target(found, changes, how), key)
  {
    var table := ApplyChanges(if how == Append then found else map[], changes);
    ThereAreThreePerms({perm});
    if perm in GroupClassUnion(table) {
      var key :| key in table && IsGroupClass(key) && perm in table[key];
      assert PermsOf(Target(found, changes, how), key) == table[key];
    }
    if key: Key :| (key.User? || key == GroupObj || key.Group?) && perm in PermsOf(Target(found, changes, how), key) {
      assert key in table && perm in table[key];
    }
  }
}
