// Bringing the access control list of a file to the promised one, after acl_posix.c.
module AclRepair {
  import opened AceSyntax
  import opened FiniteSets
  import opened ModeStrings
  import opened Options

  /** Tag type and, for named users and groups, the id: what makes an entry unique. */
  datatype Key = UserObj | User(id: int) | GroupObj | Group(id: int) | Mask | Other

  datatype Ace = Ace(key: Key, perms: set<Perm>)

  predicate UniqueKeys(acl: seq<Ace>) {
    forall i, j | 0 <= i < j < |acl| :: acl[i].key != acl[j].key
  }

  /** A list of entries read as a table; on unique keys the order does not matter. */
  function AsMap(acl: seq<Ace>): map<Key, set<Perm>> {
    if acl == [] then map[] else AsMap(acl[..|acl| - 1])[acl[|acl| - 1].key := acl[|acl| - 1].perms]
  }

  lemma {:induction false} MapHoldsEntries(acl: seq<Ace>)
    requires UniqueKeys(acl)
    ensures forall i | 0 <= i < |acl| :: acl[i].key in AsMap(acl) && AsMap(acl)[acl[i].key] == acl[i].perms
    ensures forall k | k in AsMap(acl) :: exists i :: 0 <= i < |acl| && acl[i].key == k
    ensures |AsMap(acl)| == |acl|
  {
    if acl != [] {
      var front, last := acl[..|acl| - 1], acl[|acl| - 1];
      MapHoldsEntries(front);
      assert last.key !in AsMap(front);
      forall k | k in AsMap(acl) ensures exists i :: 0 <= i < |acl| && acl[i].key == k {
        if k == last.key {
          assert acl[|acl| - 1].key == k;
        } else {
          var i :| 0 <= i < |front| && front[i].key == k;
          assert acl[i].key == k;
        }
      }
    }
  }

  lemma {:induction false} MapAfterUpdate(acl: seq<Ace>, i: nat, perms: set<Perm>)
    requires UniqueKeys(acl) && i < |acl|
    ensures UniqueKeys(acl[i := Ace(acl[i].key, perms)])
    ensures AsMap(acl[i := Ace(acl[i].key, perms)]) == AsMap(acl)[acl[i].key := perms]
  {
    var after := acl[i := Ace(acl[i].key, perms)];
    var front, last := acl[..|acl| - 1], acl[|acl| - 1];
    if i == |front| {
      assert after[..|front|] == front;
    } else {
      assert after[..|front|] == front[i := Ace(front[i].key, perms)];
      MapAfterUpdate(front, i, perms);
      assert front[i].key != last.key;
    }
  }

  // ---------------------------------------------------------------- comparing lists

  method FindACE(acl: seq<Ace>, key: Key) returns (at: nat)
    ensures at <= |acl|
    ensures at < |acl| ==> acl[at].key == key
    ensures forall i | 0 <= i < at :: acl[i].key != key
  {
    at := 0;
    while at < |acl| && acl[at].key != key
      invariant at <= |acl|
      invariant forall i | 0 <= i < at :: acl[i].key != key
    {
      at := at + 1;
    }
  }

  method ACECount(acl: seq<Ace>) returns (count: nat)
    ensures count == |acl|
  {
    count := 0;
    while count < |acl|
      invariant count <= |acl|
    {
      count := count + 1;
    }
  }

  /** 0 when the sets agree on the three permissions, 1 when not. */
  method PermsetEquals(first: set<Perm>, second: set<Perm>) returns (differ: int)
    ensures differ == if first == second then 0 else 1
  {
    ThereAreThreePerms(first);
    ThereAreThreePerms(second);
    var permsAvail := [Read, Write, Execute];
    var i := 0;
    while i < 3
      invariant 0 <= i <= 3
      invariant forall k | 0 <= k < i :: permsAvail[k] in first <==> permsAvail[k] in second
    {
      if (permsAvail[i] in first) != (permsAvail[i] in second) {
        return 1;
      }
      i := i + 1;
    }
    assert permsAvail[0] == Read && permsAvail[1] == Write && permsAvail[2] == Execute;
    return 0;
  }

  /** 0 exactly when the two lists are the same table, 1 otherwise. */
  method ACLEquals(first: seq<Ace>, second: seq<Ace>) returns (differ: int)
    requires UniqueKeys(first) && UniqueKeys(second)
    ensures differ == if AsMap(first) == AsMap(second) then 0 else 1
  {
    var firstCnt := ACECount(first);
    var secondCnt := ACECount(second);
    MapHoldsEntries(first);
    MapHoldsEntries(second);
    if firstCnt != secondCnt {
      return 1;
    }
    if firstCnt == 0 {
      return 0;
    }
    var i := 0;
    while i < |first|
      invariant 0 <= i <= |first|
      invariant forall k | 0 <= k < i :: HasEntry(second, first[k])
    {
      var j := FindACE(second, first[i].key);
      if j == |second| {
        return 1;
      }
      var differs := PermsetEquals(first[i].perms, second[j].perms);
      if differs == 1 {
        assert AsMap(first)[first[i].key] != AsMap(second)[second[j].key];
        return 1;
      }
      i := i + 1;
    }
    SameTable(first, second);
    return 0;
  }

  predicate HasEntry(acl: seq<Ace>, ace: Ace) {
    ace.key in AsMap(acl) && AsMap(acl)[ace.key] == ace.perms
  }

  // Equally many entries, and all of the first in the second: the tables are the same.
  lemma SameTable(first: seq<Ace>, second: seq<Ace>)
    requires UniqueKeys(first) && UniqueKeys(second) && |first| == |second|
    requires forall k | 0 <= k < |first| :: HasEntry(second, first[k])
    ensures AsMap(first) == AsMap(second)
  {
    MapHoldsEntries(first);
    MapHoldsEntries(second);
    var m1, m2 := AsMap(first), AsMap(second);
    forall k | k in m1 ensures k in m2 && m1[k] == m2[k] {
      var i :| 0 <= i < |first| && first[i].key == k;
      assert HasEntry(second, first[i]);
    }
    SubsetOfEqualSizeIsEqual(m1.Keys, m2.Keys);
  }

  // ---------------------------------------------------------------- reading the promised entries

  /** The user and group databases. */
  datatype Names = Names(users: map<string, int>, groups: map<string, int>)

  datatype Subject = Unknown | Subject(key: Key, next: nat)

  function IdEnd(ace: string, i: nat): (e: nat)
    requires i <= |ace|
    ensures i <= e <= |ace|
    ensures e < |ace| ==> ace[e] == ':'
  {
    var colon := ColonAfter(ace, i);
    if colon.Ends? then colon.end - 1 else |ace|
  }

  function NamedSubject(ace: string, i: nat, owner: Key, ids: map<string, int>, named: int -> Key): (s: Subject)
    requires i <= |ace|
    ensures s.Subject? ==> s.next == IdEnd(ace, i)
  {
    var id := ace[i..IdEnd(ace, i)];
    if id == "*" then Subject(owner, IdEnd(ace, i))
    else if id in ids then Subject(named(ids[id]), IdEnd(ace, i))
    else Unknown
  }

  function ParseEntityPosixLinux(ace: string, names: Names): (s: Subject)
    ensures s.Subject? ==> s.next <= |ace|
  {
    if "user:" <= ace then NamedSubject(ace, 5, UserObj, names.users, id => User(id))
    else if "group:" <= ace then NamedSubject(ace, 6, GroupObj, names.groups, id => Group(id))
    else if "all:" <= ace then Subject(Other, 3)
    else if "mask:" <= ace then Subject(Mask, 4)
    else Unknown
  }

  // An entry that passed the syntax check has its mode string where the check found it.
  lemma CheckedEntriesHaveTheirMode(ace: string, names: Names, aclType: AclType)
    requires AceValid(ace, aclType) && ParseEntityPosixLinux(ace, names).Subject?
    ensures var next := ParseEntityPosixLinux(ace, names).next;
            && next < |ace| && ace[next] == ':'
            && SubjectScan(ace, aclType) == Ends(next + 1)
            && !Mode(ace, next + 1).overruns
  {
    var subject := SubjectScan(ace, aclType);
    CheckedModesAreReadInBounds(ace, subject.end, aclType);
  }

  /** The mode parser does not leave the string of this entry. */
  predicate ReadInBounds(ace: string, names: Names) {
    var subject := ParseEntityPosixLinux(ace, names);
    subject.Subject? && subject.next < |ace| && ace[subject.next] == ':' ==> !Mode(ace, subject.next + 1).overruns
  }

  predicate AllReadInBounds(aces: seq<string>, names: Names) {
    forall k | 0 <= k < |aces| :: ReadInBounds(aces[k], names)
  }

  /** Checked entries are read in bounds. */
  lemma CheckedEntriesAreReadInBounds(aces: seq<string>, names: Names, aclType: AclType)
    requires AllValid(aces, aclType)
    ensures AllReadInBounds(aces, names)
  {
    forall k | 0 <= k < |aces| ensures ReadInBounds(aces[k], names) {
      if ParseEntityPosixLinux(aces[k], names).Subject? {
        CheckedEntriesHaveTheirMode(aces[k], names, aclType);
      }
    }
  }

  /** "all:(r" gets past the check in front of the default "all:r", and the parser leaves it. */
  lemma UncheckedEntriesCanLeaveTheirString(names: Names, aclType: AclType)
    ensures ListsPass(["all:(r"], ["all:r"], aclType) && !ReadInBounds("all:(r", names)
  {
    NonsensePasses(aclType);
    var ace := "all:(r";
    assert ace[0] == 'a' && ace[..4] == "all:";
    assert Span(ace, 6, PermChars) == 6 && Span(ace, 5, PermChars) == 6 && Span(ace, 4, PermChars) == 4;
  }

  /** What one promised entry asks for: an effect on the permissions of one key. */
  datatype Change = Change(key: Key, effect: Effect)

  function ParseAce(ace: string, names: Names): Option<Change> {
    var subject := ParseEntityPosixLinux(ace, names);
    if subject.Unknown? || subject.next == |ace| || ace[subject.next] != ':' then None
    else Some(Change(subject.key, Mode(ace, subject.next + 1).effect))
  }

  function ParseAces(aces: seq<string>, names: Names): Option<seq<Change>> {
    if aces == [] then Some([])
    else
      var front := ParseAces(aces[..|aces| - 1], names);
      var last := ParseAce(aces[|aces| - 1], names);
      if front.None? || last.None? then None else Some(front.value + [last.value])
  }

  // ---------------------------------------------------------------- the list asked for

  type Table = map<Key, set<Perm>>

  function PermsOf(table: Table, key: Key): set<Perm> {
    if key in table then table[key] else {}
  }

  // Where FindACE stops: at the entry of the key, or behind the last entry if there is none.
  lemma MapAfterFind(acl: seq<Ace>, key: Key, at: nat)
    requires UniqueKeys(acl) && at <= |acl| && (at < |acl| ==> acl[at].key == key)
    requires forall i | 0 <= i < at :: acl[i].key != key
    ensures at < |acl| ==> AsMap(acl) == AsMap(acl)[key := PermsOf(AsMap(acl), key)]
    ensures at == |acl| ==> PermsOf(AsMap(acl), key) == {}
  {
    MapHoldsEntries(acl);
  }

  function ApplyChange(table: Table, change: Change): Table {
    table[change.key := Act(change.effect, PermsOf(table, change.key))]
  }

  function ApplyChanges(table: Table, changes: seq<Change>): Table {
    if changes == [] then table
    else ApplyChange(ApplyChanges(table, changes[..|changes| - 1]), changes[|changes| - 1])
  }

  predicate Mentions(changes: seq<Change>, key: Key) {
    exists i :: 0 <= i < |changes| && changes[i].key == key
  }

  predicate IsGroupClass(key: Key) {
    key.User? || key.GroupObj? || key.Group?
  }

  /** acl_calc_mask, section 23.4.2 of IEEE 1003.1e draft 17: the union over the group class. */
  function GroupClassUnion(table: Table): set<Perm> {
    set perm | perm in ALL_PERMS && exists key :: key in table && IsGroupClass(key) && perm in table[key]
  }

  datatype AclMethod = Append | Overwrite

  /** The list that a run of the promise aims at, from the one it finds. */
  function Target(existing: Table, changes: seq<Change>, how: AclMethod): Table {
    var table := ApplyChanges(if how == Append then existing else map[], changes);
    if Mentions(changes, Mask) then table else table[Mask := GroupClassUnion(table)]
  }

  // ---------------------------------------------------------------- what the entries come to, key by key

  function EffectOn(changes: seq<Change>, key: Key): Effect {
    if changes == [] then NO_EFFECT
    else
      var front, last := EffectOn(changes[..|changes| - 1], key), changes[|changes| - 1];
      if last.key == key then Then(front, last.effect) else front
  }

  // All entries for one key, in any number, act on it as a single keep-and-add effect; keys
  // that are not mentioned are left alone.
  lemma {:induction false} ChangesActKeyByKey(table: Table, changes: seq<Change>, key: Key)
    ensures key in ApplyChanges(table, changes) <==> key in table || Mentions(changes, key)
    ensures PermsOf(ApplyChanges(table, changes), key) == Act(EffectOn(changes, key), PermsOf(table, key))
  {
    ThereAreThreePerms(PermsOf(table, key));
    if changes != [] {
      var front, last := changes[..|changes| - 1], changes[|changes| - 1];
      ChangesActKeyByKey(table, front, key);
      ActsInTurn(EffectOn(front, key), last.effect, PermsOf(table, key));
      assert Mentions(changes, key) <==> Mentions(front, key) || last.key == key by {
        if Mentions(front, key) {
          var i :| 0 <= i < |front| && front[i].key == key;
          assert changes[i].key == key;
        }
        if last.key == key {
          assert changes[|changes| - 1].key == key;
        }
      }
    }
  }

  lemma EqualTables(a: Table, b: Table)
    requires forall key :: key in a <==> key in b
    requires forall key :: PermsOf(a, key) == PermsOf(b, key)
    ensures a == b
  {
    forall key | key in a ensures a[key] == b[key] {
      assert PermsOf(a, key) == PermsOf(b, key);
    }
  }

  /** The entries for one key, in their order. */
  function EntriesFor(changes: seq<Change>, key: Key): seq<Change> {
    if changes == [] then []
    else
      var front, last := EntriesFor(changes[..|changes| - 1], key), changes[|changes| - 1];
      if last.key == key then front + [last] else front
  }

  lemma {:induction false} EffectOfTheEntriesFor(changes: seq<Change>, key: Key)
    ensures EffectOn(changes, key) == EffectOn(EntriesFor(changes, key), key)
    ensures Mentions(changes, key) <==> EntriesFor(changes, key) != []
  {
    if changes != [] {
      var front, last := changes[..|changes| - 1], changes[|changes| - 1];
      EffectOfTheEntriesFor(front, key);
      assert changes == front + [last];
      var entries := EntriesFor(front, key);
      assert (entries + [last])[..|entries|] == entries;
    }
  }

  // Entries for different keys can be given in any order, as long as those for one key keep theirs.
  lemma OnlyTheOrderPerKeyMatters(table: Table, changes: seq<Change>, others: seq<Change>)
    requires forall key :: EntriesFor(changes, key) == EntriesFor(others, key)
    ensures ApplyChanges(table, changes) == ApplyChanges(table, others)
  {
    forall key ensures EffectOn(changes, key) == EffectOn(others, key)
                       && (Mentions(changes, key) <==> Mentions(others, key)) {
      assert EntriesFor(changes, key) == EntriesFor(others, key);
      EffectOfTheEntriesFor(changes, key);
      EffectOfTheEntriesFor(others, key);
    }
    forall key ensures (key in ApplyChanges(table, changes) <==> key in ApplyChanges(table, others))
                       && PermsOf(ApplyChanges(table, changes), key) == PermsOf(ApplyChanges(table, others), key) {
      ChangesActKeyByKey(table, changes, key);
      ChangesActKeyByKey(table, others, key);
    }
    EqualTables(ApplyChanges(table, changes), ApplyChanges(table, others));
  }

  // ---------------------------------------------------------------- convergence

  // A table that agrees with ApplyChanges(table, changes) on every key but perhaps the mask.
  lemma ChangesAgain(table: Table, changes: seq<Change>, after: Table, key: Key)
    requires PermsOf(after, key) == PermsOf(ApplyChanges(table, changes), key)
    requires Mentions(changes, key) ==> key in after
    ensures PermsOf(ApplyChanges(after, changes), key) == PermsOf(after, key)
    ensures key in ApplyChanges(after, changes) <==> key in after
  {
    ChangesActKeyByKey(table, changes, key);
    ChangesActKeyByKey(after, changes, key);
    ActingTwiceIsActingOnce(EffectOn(changes, key), PermsOf(table, key));
  }

  // Run on its own result, the promise finds nothing to do, for either method and any list of
  // entries, whatever the list the first run found.
  lemma RepairConverges(existing: Table, changes: seq<Change>, how: AclMethod)
    ensures Target(Target(existing, changes, how), changes, how) == Target(existing, changes, how)
  {
    if how == Append {
      var first := ApplyChanges(existing, changes);
      var target := Target(existing, changes, how);
      var second := ApplyChanges(target, changes);
      forall key | key != Mask || Mentions(changes, Mask)
        ensures (key in second <==> key in target) && PermsOf(second, key) == PermsOf(target, key) {
        ChangesActKeyByKey(existing, changes, key);
        assert PermsOf(target, key) == PermsOf(first, key);
        ChangesAgain(existing, changes, target, key);
      }
      if Mentions(changes, Mask) {
        EqualTables(second, target);
      } else {
        EqualTables(Target(target, changes, how), target);
      }
    }
  }

  // Without a mask entry among the promised ones, the mask of the result bounds the group class.
  lemma ComputedMaskBoundsTheGroupClass(existing: Table, changes: seq<Change>, how: AclMethod, key: Key)
    requires !Mentions(changes, Mask) && IsGroupClass(key)
    ensures Mask in Target(existing, changes, how)
    ensures PermsOf(Target(existing, changes, how), key) <= Target(existing, changes, how)[Mask]
  {
    var table := ApplyChanges(if how == Append then existing else map[], changes);
    ThereAreThreePerms(PermsOf(table, key));
  }

  // ---------------------------------------------------------------- the repair as written

  class Acl {
    var entries: seq<Ace>

    constructor (entries: seq<Ace>)
      requires UniqueKeys(entries)
      ensures this.entries == entries
    {
      this.entries := entries;
    }

    /** Find-then-create: afterwards the key has an entry, empty if it is new. */
    method EntryFor(key: Key) returns (at: nat)
      requires UniqueKeys(entries)
      modifies this
      ensures UniqueKeys(entries) && at < |entries| && entries[at].key == key
      ensures AsMap(entries) == AsMap(old(entries))[key := PermsOf(AsMap(old(entries)), key)]
    {
      at := FindACE(entries, key);
      MapAfterFind(entries, key, at);
      if at == |entries| {
        entries := entries + [Ace(key, {})];
      }
    }

    /** acl_calc_mask of the ACL library. */
    method CalcMask()
      requires UniqueKeys(entries)
      modifies this
      ensures UniqueKeys(entries)
      ensures AsMap(entries) == AsMap(old(entries))[Mask := GroupClassUnion(AsMap(old(entries)))]
    {
      var union: set<Perm> := {};
      var i := 0;
      while i < |entries|
        invariant 0 <= i <= |entries|
        invariant forall perm :: perm in union <==>
                    exists k :: 0 <= k < i && IsGroupClass(entries[k].key) && perm in entries[k].perms
      {
        if IsGroupClass(entries[i].key) {
          union := union + entries[i].perms;
        }
        i := i + 1;
      }
      UnionOfEntries(entries, union);
      var at := EntryFor(Mask);
      MapAfterUpdate(entries, at, union);
      entries := entries[at := Ace(Mask, union)];
    }
  }

  lemma UnionOfEntries(acl: seq<Ace>, union: set<Perm>)
    requires UniqueKeys(acl)
    requires forall perm :: perm in union <==>
               exists k :: 0 <= k < |acl| && IsGroupClass(acl[k].key) && perm in acl[k].perms
    ensures union == GroupClassUnion(AsMap(acl))
  {
    MapHoldsEntries(acl);
    ThereAreThreePerms(union);
    forall perm | perm in GroupClassUnion(AsMap(acl)) ensures perm in union {
      var key :| key in AsMap(acl) && IsGroupClass(key) && perm in AsMap(acl)[key];
      var k :| 0 <= k < |acl| && acl[k].key == key;
      assert perm in acl[k].perms;
    }
  }

  /** One pass of the loop over the promised entries; false when the entry cannot be parsed. */
  method ApplyAce(ace: string, names: Names, acl: Acl) returns (ok: bool, isMask: bool)
    requires ReadInBounds(ace, names) && UniqueKeys(acl.entries)
    modifies acl
    ensures UniqueKeys(acl.entries)
    ensures ok <==> ParseAce(ace, names).Some?
    ensures ok ==> AsMap(acl.entries) == ApplyChange(AsMap(old(acl.entries)), ParseAce(ace, names).value)
    ensures ok ==> (isMask <==> ParseAce(ace, names).value.key == Mask)
  {
    var subject := ParseEntityPosixLinux(ace, names);
    if subject.Unknown? {
      return false, false;
    }
    isMask := subject.key == Mask;
    var at := acl.EntryFor(subject.key);
    if subject.next == |ace| || ace[subject.next] != ':' {
      return false, isMask;
    }
    ApplyMode(ace, subject.next + 1, acl, at);
    ok := true;
  }

  /** The permission set of one entry is handed to the mode parser. */
  method ApplyMode(ace: string, start: nat, acl: Acl, at: nat)
    requires start <= |ace| && !Mode(ace, start).overruns
    requires UniqueKeys(acl.entries) && at < |acl.entries|
    modifies acl
    ensures UniqueKeys(acl.entries)
    ensures var table, key := AsMap(old(acl.entries)), old(acl.entries[at].key);
            AsMap(acl.entries) == table[key := Act(Mode(ace, start).effect, PermsOf(table, key))]
  {
    MapHoldsEntries(acl.entries);
    var perms := new Permset(acl.entries[at].perms);
    ParseModePosixLinux(ace, start, perms);
    MapAfterUpdate(acl.entries, at, perms.bits);
    acl.entries := acl.entries[at := Ace(acl.entries[at].key, perms.bits)];
  }

  datatype Action = Fix | Warn
  datatype Outcome = Noop | Warned | Changed | Failed

  /** A file with one of its lists; the kernel keeps it in an order of its own. */
  class FileAcl {
    var stored: seq<Ace>

    constructor (stored: seq<Ace>)
      requires UniqueKeys(stored)
      ensures this.stored == stored
    {
      this.stored := stored;
    }

    method BuildAcl(aces: seq<string>, names: Names, how: AclMethod)
      returns (acl: Acl, ok: bool, hasMask: bool)
      requires UniqueKeys(stored) && AllReadInBounds(aces, names)
      ensures fresh(acl) && UniqueKeys(acl.entries)
      ensures ok <==> ParseAces(aces, names).Some?
      ensures ok ==> AsMap(acl.entries) == ApplyChanges(if how == Append then AsMap(stored) else map[],
                                                        ParseAces(aces, names).value)
      ensures ok ==> (hasMask <==> Mentions(ParseAces(aces, names).value, Mask))
    {
      acl := new Acl(if how == Append then stored else []);
      ghost var base := AsMap(acl.entries);
      ok, hasMask := true, false;
      var i := 0;
      while i < |aces|
        invariant 0 <= i <= |aces| && ok
        invariant fresh(acl) && UniqueKeys(acl.entries)
        invariant Progress(aces[..i], names, base) == Some((AsMap(acl.entries), hasMask))
      {
        ok, hasMask := ApplyNext(aces, i, names, acl, base, hasMask);
        if !ok {
          ParsingStopsAt(aces, names, i);
          return;
        }
        i := i + 1;
      }
      assert aces[..i] == aces;
    }

    /** One turn of the loop over the promised entries. */
    method ApplyNext(aces: seq<string>, i: nat, names: Names, acl: Acl, ghost base: Table, hasMaskBefore: bool)
      returns (ok: bool, hasMask: bool)
      requires i < |aces| && AllReadInBounds(aces, names) && UniqueKeys(acl.entries)
      requires Progress(aces[..i], names, base) == Some((AsMap(acl.entries), hasMaskBefore))
      modifies acl
      ensures UniqueKeys(acl.entries) && (ok <==> ParseAce(aces[i], names).Some?)
      ensures ok ==> Progress(aces[..i + 1], names, base) == Some((AsMap(acl.entries), hasMask))
    {
      ghost var before := AsMap(acl.entries);
      var isMask;
      ok, isMask := ApplyAce(aces[i], names, acl);
      hasMask := hasMaskBefore || isMask;
      if ok {
        assert aces[..i] + [aces[i]] == aces[..i + 1];
      }
    }

    /** dontDo: changes are only reported. settable: whether the system accepts the new list. */
    method CheckPosixLinuxACEs(aces: seq<string>, names: Names, how: AclMethod, action: Action, dontDo: bool,
                               settable: bool)
      returns (outcome: Outcome)
      requires UniqueKeys(stored) && AllReadInBounds(aces, names)
      modifies this
      ensures UniqueKeys(stored)
      ensures ParseAces(aces, names).None? ==> outcome == Failed && stored == old(stored)
      ensures ParseAces(aces, names).Some? ==>
                var found := AsMap(old(stored));
                var target := Target(found, ParseAces(aces, names).value, how);
                && (outcome == Noop <==> target == found)
                && (outcome == Warned <==> target != found && action == Warn)
                && (outcome == Failed <==> target != found && action == Fix && !dontDo && !settable)
                && AsMap(stored) == (if outcome == Changed && !dontDo then target else found)
    {
      var acl, ok, hasMask := BuildAcl(aces, names, how);
      if !ok {
        return Failed;
      }
      if !hasMask {
        acl.CalcMask();
      }
      var differ := ACLEquals(stored, acl.entries);
      if differ == 0 {
        return Noop;
      }
      if action == Warn {
        return Warned;
      }
      if !dontDo {
        if !settable {
          return Failed;
        }
        stored := acl.entries;
      }
      return Changed;
    }
  }

  // What the loop over the promised entries has come to after the ones given.
  ghost function Progress(aces: seq<string>, names: Names, base: Table): Option<(Table, bool)> {
    match ParseAces(aces, names)
    case None => None
    case Some(changes) => Some((ApplyChanges(base, changes), Mentions(changes, Mask)))
  }

  lemma {:induction false} ParsingStopsAt(aces: seq<string>, names: Names, i: nat)
    requires i < |aces| && ParseAce(aces[i], names).None?
    ensures ParseAces(aces, names).None?
  {
    if i < |aces| - 1 {
      ParsingStopsAt(aces[..|aces| - 1], names, i);
    }
  }

  /** Two runs in a row: the second one reports that nothing needs modification, even if the
      system gives the list back in another order. */
  method RepairTwice(file: FileAcl, aces: seq<string>, names: Names, how: AclMethod, reordered: seq<Ace>)
    returns (first: Outcome, second: Outcome)
    requires UniqueKeys(file.stored) && AllReadInBounds(aces, names) && ParseAces(aces, names).Some?
    requires UniqueKeys(reordered)
    requires AsMap(reordered) == Target(AsMap(file.stored), ParseAces(aces, names).value, how)
    modifies file
    ensures first == Noop || first == Changed
    ensures second == Noop
  {
    RepairConverges(AsMap(file.stored), ParseAces(aces, names).value, how);
    first := file.CheckPosixLinuxACEs(aces, names, how, Fix, false, true);
    file.stored := reordered;
    second := file.CheckPosixLinuxACEs(aces, names, how, Fix, false, true);
  }
}
