// The changes database: which names were recorded in which directory, and the traces kept
// of each file. After files_changes.c.
module ChangesDatabase {
  import opened DirectoryLists
  import FilePaths = Paths
  import opened FiniteSets
  import opened Options
  import opened StringOrder

  // ---------------------------------------------------------------- keys

  type Table = map<string, string>

  const HASH_NAMES := ["md5", "sha224", "sha256", "sha384", "sha512", "sha1", "sha", "best", "crypt"]

  function DirKey(path: string): string {
    "D_" + path
  }

  function StatKey(path: string): string {
    "S_" + path
  }

  function Zeros(n: nat): (s: string)
    ensures |s| == n
  {
    seq(n, _ => NUL)
  }

  /** NewIndexKey. The two-byte strlcpy keeps the 'H' but not the '_'; the hash name takes eight
      bytes, zeros included, and the path is followed by one more zero. */
  function HashKey(c: nat, path: string): string
    requires c < |HASH_NAMES|
  {
    "H" + Zeros(1) + HASH_NAMES[c] + Zeros(8 - |HASH_NAMES[c]|) + path + Zeros(1)
  }

  /** The keys under which anything but its name is kept for a file. */
  ghost predicate IsTraceOf(key: string, path: string) {
    key == StatKey(path) || exists c: nat :: c < |HASH_NAMES| && key == HashKey(c, path)
  }

  lemma KeyLetters(path: string, c: nat)
    requires c < |HASH_NAMES|
    ensures DirKey(path)[0] == 'D' && StatKey(path)[0] == 'S' && HashKey(c, path)[0] == 'H'
  {
  }

  lemma HashKeyNamesItsPath(c: nat, path: string)
    requires c < |HASH_NAMES|
    ensures |HashKey(c, path)| == |path| + 11 && HashKey(c, path)[10..10 + |path|] == path
  {
    var head := "H" + Zeros(1) + HASH_NAMES[c] + Zeros(8 - |HASH_NAMES[c]|);
    assert |head| == 10;
    assert HashKey(c, path) == head + path + Zeros(1);
  }

  // Different files never share a trace, and no directory list is one.
  lemma TracesAreApart(key: string, path: string, other: string)
    requires IsTraceOf(key, path)
    ensures IsTraceOf(key, other) ==> path == other
    ensures key != DirKey(other)
  {
    KeyLetters(path, 0);
    if key == StatKey(path) {
      if IsTraceOf(key, other) {
        if c: nat :| c < |HASH_NAMES| && key == HashKey(c, other) {
          KeyLetters(other, c);
          assert false;
        }
        assert key[2..] == path && key[2..] == other;
      }
      KeyLetters(other, 0);
    } else {
      var c: nat :| c < |HASH_NAMES| && key == HashKey(c, path);
      KeyLetters(path, c);
      KeyLetters(other, c);
      HashKeyNamesItsPath(c, path);
      if IsTraceOf(key, other) {
        var d: nat :| d < |HASH_NAMES| && key == HashKey(d, other);
        HashKeyNamesItsPath(d, other);
      }
    }
  }

  // ---------------------------------------------------------------- the directory list of a path

  /** What GetDirectoryListFromDatabase reads: nothing recorded reads as the empty list. */
  function ListOf(table: Table, path: string): Option<seq<string>> {
    if DirKey(path) in table then Decode(table[DirKey(path)]) else Some([])
  }

  function WithList(table: Table, path: string, files: seq<string>): Table {
    if files == [] then table - {DirKey(path)} else table[DirKey(path) := Encode(files)]
  }

  lemma DirKeysAreApart(path: string, other: string)
    ensures DirKey(path) == DirKey(other) ==> path == other
  {
    assert DirKey(path)[2..] == path && DirKey(other)[2..] == other;
  }

  lemma ListAfterWrite(table: Table, path: string, files: seq<string>, other: string)
    requires AllNulFree(files)
    ensures ListOf(WithList(table, path, files), path) == Some(files)
    ensures other != path ==> ListOf(WithList(table, path, files), other) == ListOf(table, other)
  {
    ReadingBackAWrittenList(files);
    DirKeysAreApart(path, other);
  }

  ghost predicate WellKeptAt(table: Table, path: string) {
    && ListOf(table, path).Some?
    && StrictlySorted(ListOf(table, path).value) && AllNulFree(ListOf(table, path).value)
  }

  /** Every recorded list can be read and is strictly sorted. */
  ghost predicate WellKept(table: Table) {
    forall path {:trigger ListOf(table, path)} :: WellKeptAt(table, path)
  }

  // ---------------------------------------------------------------- migration, one file

  function LastSlash(file: string): (i: nat)
    ensures i <= |file|
    ensures i < |file| ==> file[i] == '/'
    ensures i == |file| <==> '/' !in file
    ensures forall k | i < k < |file| :: file[k] != '/'
  {
    if file == "" then 0
    else
      var i := LastSlash(file[1..]);
      assert file == [file[0]] + file[1..];
      assert forall k | 1 <= k < |file| :: file[k] == file[1..][k - 1];
      if i < |file| - 1 then i + 1 else if file[0] == '/' then 0 else |file|
  }

  function DirOf(file: string): string
    requires '/' in file
  {
    if LastSlash(file) == 0 then "/" else file[..LastSlash(file)]
  }

  function BaseOf(file: string): string
    requires '/' in file
  {
    file[LastSlash(file) + 1..]
  }

  /** A file name is cut at its last slash; what is in front of a leading slash is the root. */
  lemma CutAtTheLastSlash(file: string)
    requires '/' in file
    ensures '/' !in BaseOf(file) && DirOf(file) != ""
    ensures file == DirOf(file) + "/" + BaseOf(file) || (DirOf(file) == "/" && file == "/" + BaseOf(file))
  {
    CutAt(file, LastSlash(file));
  }

  lemma CutAt(file: string, i: nat)
    requires i < |file| && file[i] == '/' && forall k | i < k < |file| :: file[k] != '/'
    ensures file == file[..i] + "/" + file[i + 1..] && '/' !in file[i + 1..]
    ensures i == 0 ==> file == "/" + file[1..]
  {
    var base := file[i + 1..];
    assert forall k | 0 <= k < |base| :: base[k] == file[i + 1 + k];
  }

  /** The names of a directory once a migrated file is in it. */
  function WithName(files: seq<string>, name: string): seq<string> {
    if name in files then files else Sorted(files + [name])
  }

  function Migrated(table: Table, file: string): Table {
    if '/' !in file then table
    else
      var files := ListOf(table, DirOf(file));
      if files.None? || BaseOf(file) in files.value then table
      else WithList(table, DirOf(file), WithName(files.value, BaseOf(file)))
  }

  lemma WithNameAddsTheName(files: seq<string>, name: string)
    requires StrictlySorted(files) && AllNulFree(files) && NulFree(name)
    ensures StrictlySorted(WithName(files, name)) && AllNulFree(WithName(files, name))
    ensures Entries(WithName(files, name)) == Entries(files) + {name}
  {
    if name !in files {
      StrictlySortedIsDistinct(files);
      SortingSorts(files + [name]);
      assert Entries(files + [name]) == Entries(files) + {name};
      var sorted := WithName(files, name);
      forall k | 0 <= k < |sorted| ensures NulFree(sorted[k]) {
        assert sorted[k] in Entries(sorted);
      }
    }
  }

  // One migrated file adds its name to the list of its directory and leaves every other list.
  lemma MigrationOfOneFile(table: Table, file: string, path: string)
    requires WellKeptAt(table, path) && ('/' in file ==> WellKeptAt(table, DirOf(file))) && NulFree(file)
    ensures WellKeptAt(Migrated(table, file), path)
    ensures Entries(ListOf(Migrated(table, file), path).value)
         == Entries(ListOf(table, path).value) + if '/' in file && DirOf(file) == path then {BaseOf(file)} else {}
  {
    if '/' in file {
      MigrationOfAFileIn(table, DirOf(file), BaseOf(file), path);
    }
  }

  lemma MigrationOfAFileIn(table: Table, dir: string, base: string, path: string)
    requires WellKeptAt(table, path) && WellKeptAt(table, dir) && NulFree(base)
    ensures var files := ListOf(table, dir).value;
            var after := if base in files then table else WithList(table, dir, WithName(files, base));
            && WellKeptAt(after, path)
            && Entries(ListOf(after, path).value)
               == Entries(ListOf(table, path).value) + if dir == path then {base} else {}
  {
    var files := ListOf(table, dir).value;
    WithNameAddsTheName(files, base);
    ListAfterWrite(table, dir, WithName(files, base), path);
  }

  lemma MigrationKeepsWell(table: Table, file: string)
    requires WellKept(table) && NulFree(file)
    ensures WellKept(Migrated(table, file))
  {
    assert '/' in file ==> WellKeptAt(table, DirOf(file));
    forall path ensures WellKeptAt(Migrated(table, file), path) {
      assert WellKeptAt(table, path);
      MigrationOfOneFile(table, file, path);
    }
  }

  // ---------------------------------------------------------------- migration, any files in any order

  function MigratedAll(table: Table, files: seq<string>): Table {
    if files == [] then table else Migrated(MigratedAll(table, files[..|files| - 1]), files[|files| - 1])
  }

  ghost function NamesMigratedInto(path: string, files: seq<string>): set<string> {
    set file | file in files && '/' in file && DirOf(file) == path :: BaseOf(file)
  }

  lemma {:induction false} MigrationOfManyFiles(table: Table, files: seq<string>, path: string)
    requires WellKept(table) && AllNulFree(files)
    ensures WellKeptAt(MigratedAll(table, files), path)
    ensures Entries(ListOf(MigratedAll(table, files), path).value)
         == Entries(ListOf(table, path).value) + NamesMigratedInto(path, files)
  {
    if files == [] {
      assert ListOf(table, path) == ListOf(MigratedAll(table, files), path);
    } else {
      var front, last := files[..|files| - 1], files[|files| - 1];
      MigrationOfManyFiles(table, front, path);
      if '/' in last {
        MigrationOfManyFiles(table, front, DirOf(last));
      }
      MigrationOfOneFile(MigratedAll(table, front), last, path);
      NamesOfOneMore(path, front, last);
      assert files == front + [last];
    }
  }

  lemma MigrationKeepsListsSorted(table: Table, files: seq<string>)
    requires WellKept(table) && AllNulFree(files)
    ensures WellKept(MigratedAll(table, files))
    ensures forall path :: Entries(ListOf(MigratedAll(table, files), path).value)
                           == Entries(ListOf(table, path).value) + NamesMigratedInto(path, files)
  {
    forall path
      ensures WellKeptAt(MigratedAll(table, files), path)
      ensures Entries(ListOf(MigratedAll(table, files), path).value)
           == Entries(ListOf(table, path).value) + NamesMigratedInto(path, files)
    {
      MigrationOfManyFiles(table, files, path);
    }
  }

  lemma NamesOfOneMore(path: string, files: seq<string>, file: string)
    ensures NamesMigratedInto(path, files + [file])
            == NamesMigratedInto(path, files) + (if '/' in file && DirOf(file) == path then {BaseOf(file)} else {})
  {
    var all := files + [file];
    forall name | name in NamesMigratedInto(path, all)
      ensures name in NamesMigratedInto(path, files)
                      + (if '/' in file && DirOf(file) == path then {BaseOf(file)} else {}) {
      var f :| f in all && '/' in f && DirOf(f) == path && BaseOf(f) == name;
    }
    forall name | name in NamesMigratedInto(path, files) ensures name in NamesMigratedInto(path, all) {
      var f :| f in files && '/' in f && DirOf(f) == path && BaseOf(f) == name;
      assert f in all;
    }
    if '/' in file && DirOf(file) == path {
      assert file in all;
    }
  }

  // The keys of the old database may come in any order, and more than once.
  lemma MigrationOrderDoesNotMatter(table: Table, files: seq<string>, others: seq<string>, path: string)
    requires WellKept(table) && AllNulFree(files) && AllNulFree(others)
    requires Entries(files) == Entries(others)
    ensures ListOf(MigratedAll(table, files), path) == ListOf(MigratedAll(table, others), path)
  {
    MigrationKeepsListsSorted(table, files);
    MigrationKeepsListsSorted(table, others);
    assert NamesMigratedInto(path, files) == NamesMigratedInto(path, others) by {
      assert forall file :: file in files <==> file in Entries(files);
      assert forall file :: file in others <==> file in Entries(others);
    }
    SortedListsAreUnique(ListOf(MigratedAll(table, files), path).value, ListOf(MigratedAll(table, others), path).value);
  }

  /** Where MigrateOldChecksumDatabase writes what was stored under an old key. */
  function MigratedHashKey(oldKey: string): string {
    "H_" + oldKey
  }

  // A migrated checksum is never found again: the keys that are looked up have no '_'.
  lemma MigratedHashesAreNotFound(oldKey: string, c: nat, path: string)
    requires c < |HASH_NAMES|
    ensures HashKey(c, path) != MigratedHashKey(oldKey)
  {
    assert HashKey(c, path)[1] == NUL && MigratedHashKey(oldKey)[1] == '_';
  }

  // ---------------------------------------------------------------- removing traces

  ghost predicate IsTraceOfAny(key: string, paths: seq<string>) {
    exists k :: 0 <= k < |paths| && IsTraceOf(key, paths[k])
  }

  ghost function WithoutTraces(table: Table, paths: seq<string>): Table {
    map key | key in table && !IsTraceOfAny(key, paths) :: table[key]
  }

  lemma TracesOfOneMore(table: Table, paths: seq<string>, path: string)
    ensures WithoutTraces(WithoutTraces(table, paths), [path]) == WithoutTraces(table, paths + [path])
  {
    forall key ensures IsTraceOfAny(key, paths + [path]) <==> IsTraceOfAny(key, paths) || IsTraceOfAny(key, [path]) {
      var longer := paths + [path];
      assert longer[|paths|] == [path][0];
      if k :| 0 <= k < |paths| && IsTraceOf(key, paths[k]) {
        assert IsTraceOf(key, longer[k]);
      }
    }
  }

  // No other file's traces are lost, and no directory list.
  lemma OnlyTheirTracesAreLost(table: Table, paths: seq<string>, key: string, other: string)
    requires key in table
    requires (IsTraceOf(key, other) && other !in paths) || key == DirKey(other)
    ensures key in WithoutTraces(table, paths)
  {
    if k :| 0 <= k < |paths| && IsTraceOf(key, paths[k]) {
      TracesAreApart(key, paths[k], other);
    }
  }

  lemma ListsSurvive(table: Table, paths: seq<string>, path: string)
    ensures ListOf(WithoutTraces(table, paths), path) == ListOf(table, path)
  {
    if DirKey(path) in table {
      OnlyTheirTracesAreLost(table, paths, DirKey(path), path);
    }
  }

  // ---------------------------------------------------------------- one directory against the disk

  /** The recorded names that are no longer on disk, in order. */
  function Missing(recorded: seq<string>, disk: seq<string>): seq<string> {
    if recorded == [] then []
    else
      var front, last := Missing(recorded[..|recorded| - 1], disk), recorded[|recorded| - 1];
      if last in disk then front else front + [last]
  }

  function Paths(dir: string, names: seq<string>): (paths: seq<string>)
    ensures |paths| == |names|
    ensures forall k | 0 <= k < |names| :: paths[k] == dir + "/" + names[k]
  {
    seq(|names|, k requires 0 <= k < |names| => dir + "/" + names[k])
  }

  lemma {:induction false} MissingAreTheRecordedNotOnDisk(recorded: seq<string>, disk: seq<string>)
    ensures Entries(Missing(recorded, disk)) == Entries(recorded) - Entries(disk)
    ensures Distinct(recorded) ==> Distinct(Missing(recorded, disk))
  {
    if recorded != [] {
      var front, last := recorded[..|recorded| - 1], recorded[|recorded| - 1];
      MissingAreTheRecordedNotOnDisk(front, disk);
      assert recorded == front + [last];
      assert Entries(recorded) == Entries(front) + {last};
      var missing := Missing(front, disk);
      assert last in disk <==> last in Entries(disk);
      assert Entries(missing + [last]) == Entries(missing) + {last};
      if Distinct(recorded) {
        assert last !in Entries(front);
        assert forall k | 0 <= k < |missing| :: missing[k] in Entries(missing);
      }
    }
  }

  datatype Outcome = Noop | Change | Fail

  /** What the walk comes to: Noop exactly when the two sets are the same. */
  function OutcomeOf(disk: seq<string>, recorded: seq<string>, update: bool, writable: bool): Outcome {
    if Entries(disk) == Entries(recorded) then Noop else if update && writable then Change else Fail
  }

  /** The database after the walk: the traces of vanished files are gone in any case. */
  ghost function Updated(table: Table, name: string, disk: seq<string>, recorded: seq<string>, outcome: Outcome): Table {
    var swept := WithoutTraces(table, Paths(name, Missing(recorded, disk)));
    if outcome == Change then WithList(swept, name, Sorted(disk)) else swept
  }

  /** Every list but that of name reads as before. */
  ghost predicate OthersStay(table: Table, after: Table, name: string) {
    forall path | path != name :: ListOf(after, path) == ListOf(table, path)
  }

  lemma OnlyItsListIsWritten(table: Table, paths: seq<string>, name: string, files: seq<string>)
    ensures OthersStay(table, WithList(WithoutTraces(table, paths), name, files), name)
    ensures AllNulFree(files) ==> ListOf(WithList(WithoutTraces(table, paths), name, files), name) == Some(files)
  {
    var swept := WithoutTraces(table, paths);
    forall path | path != name ensures ListOf(WithList(swept, name, files), path) == ListOf(table, path) {
      DirKeysAreApart(name, path);
      ListsSurvive(table, paths, path);
    }
    if AllNulFree(files) {
      ListAfterWrite(swept, name, files, name);
    }
  }

  /**
   * On equal sets nothing is done. On others the run fails and leaves every list alone unless an
   * update is asked for and the database takes it, an empty list being taken anyway; then the names
   * on disk are recorded, and the other lists stay.
   */
  lemma WhatARunDoes(table: Table, name: string, disk: seq<string>, recorded: seq<string>, update: bool, accepted: bool)
    requires Distinct(disk) && StrictlySorted(recorded)
    ensures var outcome := OutcomeOf(disk, recorded, update, accepted);
            var after := Updated(table, name, disk, recorded, outcome);
            && (Entries(disk) == Entries(recorded) ==> outcome == Noop && after == table)
            && (Entries(disk) != Entries(recorded) && !(update && accepted) ==>
                  outcome == Fail && forall path :: ListOf(after, path) == ListOf(table, path))
            && (Entries(disk) != Entries(recorded) && update && accepted ==>
                  && outcome == Change && OthersStay(table, after, name)
                  && (AllNulFree(disk) ==> ListOf(after, name) == Some(Sorted(disk))))
  {
    var paths := Paths(name, Missing(recorded, disk));
    if Entries(disk) == Entries(recorded) {
      NothingIsMissing(recorded, disk);
    } else if update && accepted {
      OnlyItsListIsWritten(table, paths, name, Sorted(disk));
      if AllNulFree(disk) {
        SortedIsNulFree(disk);
      }
    } else {
      forall path ensures ListOf(WithoutTraces(table, paths), path) == ListOf(table, path) {
        ListsSurvive(table, paths, path);
      }
    }
  }

  class ChangesDb {
    var table: Table
    var removals: seq<string>  // the paths logged as removed

    constructor (table: Table)
      ensures this.table == table && removals == []
    {
      this.table, removals := table, [];
    }

    method GetDirectoryList(path: string) returns (ok: bool, files: seq<string>)
      ensures ok <==> ListOf(table, path).Some?
      ensures ok ==> files == ListOf(table, path).value
    {
      if DirKey(path) !in table || |table[DirKey(path)]| == 0 {
        return true, [];
      }
      ok, files := ReadEntries(table[DirKey(path)]);
    }

    /** writable: whether the database takes the new value. */
    method SetDirectoryList(path: string, files: seq<string>, writable: bool) returns (ok: bool)
      modifies this`table
      ensures ok <==> files == [] || writable
      ensures table == if ok then WithList(old(table), path, files) else old(table)
    {
      if |files| == 0 {
        table := table - {DirKey(path)};
        return true;
      }
      var rawEntries := WriteEntries(files);
      if !writable {
        return false;
      }
      table := table[DirKey(path) := rawEntries[..]];
      return true;
    }

    /** writable: whether the database takes the new list; if not, that is logged. */
    method AddMigratedFileToDirectoryList(file: string, writable: bool)
      requires WellKept(table) && NulFree(file)
      modifies this`table
      ensures table == (if writable then Migrated(old(table), file) else old(table)) && WellKept(table)
    {
      var lastSlash := LastSlash(file);
      MigrationKeepsWell(table, file);
      if lastSlash == |file| {
        assert '/' !in file;
        return;
      }
      var dir, basefile := file[..lastSlash], file[lastSlash + 1..];
      if lastSlash == 0 {
        dir := "/";
        basefile := file[1..];
      }
      assert '/' in file && dir == DirOf(file) && basefile == BaseOf(file) && WellKeptAt(table, dir);
      AddNameToList(dir, basefile, writable);
    }

    method AddNameToList(dir: string, basefile: string, writable: bool)
      requires WellKeptAt(table, dir)
      modifies this`table
      ensures var files := ListOf(old(table), dir).value;
              table == if basefile in files || !writable then old(table)
                       else WithList(old(table), dir, WithName(files, basefile))
    {
      var ok, files := GetDirectoryList(dir);
      if !ok {
        return;
      }
      var at := SeqBinaryIndexOf(files, basefile);
      if at >= |files| {
        assert basefile in Entries(files + [basefile]);
        var _ := SetDirectoryList(dir, Sorted(files + [basefile]), writable);
      }
    }

    method RemoveAllFileTraces(path: string)
      modifies this`table
      ensures table == WithoutTraces(old(table), [path])
    {
      var c: nat := 0;
      while c < |HASH_NAMES|
        invariant c <= |HASH_NAMES|
        invariant forall key | key in table :: key in old(table) && table[key] == old(table)[key]
        invariant forall key | key in old(table) ::
                    key !in table <==> exists d: nat :: d < c && key == HashKey(d, path)
      {
        table := table - {HashKey(c, path)};
        c := c + 1;
      }
      table := table - {StatKey(path)};
      assert [path][0] == path;
      assert forall key | key in old(table) :: key in table <==> !IsTraceOfAny(key, [path]);
    }

    /** fileSet is what is on disk, in any order; dbFileSet what was recorded. */
    method CheckAndUpdateDirectory(name: string, fileSet: seq<string>, dbFileSet: seq<string>,
                                   update: bool, writable: bool)
      returns (outcome: Outcome)
      requires Distinct(fileSet) && StrictlySorted(dbFileSet)
      modifies this
      ensures outcome == OutcomeOf(fileSet, dbFileSet, update, writable || fileSet == [])
      ensures removals == old(removals) + Paths(name, Missing(dbFileSet, fileSet))
      ensures table == Updated(old(table), name, fileSet, dbFileSet, outcome)
      ensures Entries(fileSet) == Entries(dbFileSet) ==> outcome == Noop && table == old(table)
      ensures Entries(fileSet) != Entries(dbFileSet) && (!update || (!writable && fileSet != [])) ==>
                outcome == Fail && forall path :: ListOf(table, path) == ListOf(old(table), path)
      ensures Entries(fileSet) != Entries(dbFileSet) && update && (writable || fileSet == []) ==>
                && outcome == Change && OthersStay(old(table), table, name)
                && (AllNulFree(fileSet) ==> ListOf(table, name) == Some(Sorted(fileSet)))
    {
      WhatARunDoes(table, name, fileSet, dbFileSet, update, writable || fileSet == []);
      var diskFileSet := Sorted(fileSet);
      SortingSorts(fileSet);
      var changed := MergeWalk(name, diskFileSet, dbFileSet);
      MissingDependsOnTheSet(dbFileSet, diskFileSet, fileSet);
      assert fileSet == [] <==> diskFileSet == [] by {
        if fileSet != [] { assert fileSet[0] in Entries(fileSet); }
        if diskFileSet != [] { assert diskFileSet[0] in Entries(diskFileSet); }
      }
      if changed {
        outcome := Fail;
        if update {
          var ok := SetDirectoryList(name, diskFileSet, writable);
          if ok {
            outcome := Change;
          }
        }
      } else {
        outcome := Noop;
      }
    }

    /** Traverses the union of the two sorted lists in merged order. */
    method MergeWalk(name: string, disk: seq<string>, recorded: seq<string>) returns (changed: bool)
      requires StrictlySorted(disk) && StrictlySorted(recorded)
      modifies this
      ensures changed <==> Entries(disk) != Entries(recorded)
      ensures removals == old(removals) + Paths(name, Missing(recorded, disk))
      ensures table == WithoutTraces(old(table), Paths(name, Missing(recorded, disk)))
    {
      changed := false;
      var diskPos, dbPos: nat := 0, 0;
      while diskPos < |disk| || dbPos < |recorded|
        invariant Merged(disk, recorded, diskPos, dbPos, changed)
        invariant removals == old(removals) + Paths(name, Missing(recorded[..dbPos], disk))
        invariant table == WithoutTraces(old(table), Paths(name, Missing(recorded[..dbPos], disk)))
        decreases |disk| - diskPos + |recorded| - dbPos
      {
        var compareResult := Next(disk, recorded, diskPos, dbPos);
        MergeStep(disk, recorded, diskPos, dbPos, changed);
        MissingInPrefix(name, recorded, disk, dbPos);
        if compareResult < 0 {
          changed := true;
          diskPos := diskPos + 1;
        } else if compareResult > 0 {
          TracesOfOneMore(old(table), Paths(name, Missing(recorded[..dbPos], disk)), name + "/" + recorded[dbPos]);
          LogAndRemove(name + "/" + recorded[dbPos]);
          changed := true;
          dbPos := dbPos + 1;
        } else {
          diskPos := diskPos + 1;
          dbPos := dbPos + 1;
        }
      }
      MergedToTheEnd(disk, recorded, changed);
      assert recorded[..dbPos] == recorded;
    }

    method LogAndRemove(path: string)
      modifies this
      ensures removals == old(removals) + [path]
      ensures table == WithoutTraces(old(table), [path])
    {
      removals := removals + [path];
      RemoveAllFileTraces(path);
    }
  }

  /** Which list the walk looks at next: disk before 0, record above 0, both at 0. */
  function Next(disk: seq<string>, recorded: seq<string>, diskPos: nat, dbPos: nat): int
    requires diskPos <= |disk| && dbPos <= |recorded|
  {
    if diskPos == |disk| then 1
    else if dbPos == |recorded| then -1
    else Compare(disk[diskPos], recorded[dbPos])
  }

  // Everything already passed in one list comes before everything still to come in the other.
  ghost predicate Merged(disk: seq<string>, recorded: seq<string>, diskPos: nat, dbPos: nat, changed: bool) {
    && diskPos <= |disk| && dbPos <= |recorded|
    && (forall i, j | 0 <= i < diskPos && dbPos <= j < |recorded| :: Before(disk[i], recorded[j]))
    && (forall i, j | diskPos <= i < |disk| && 0 <= j < dbPos :: Before(recorded[j], disk[i]))
    && (changed ==> Entries(disk) != Entries(recorded))
    && (!changed ==> disk[..diskPos] == recorded[..dbPos])
  }

  lemma MergeStep(disk: seq<string>, recorded: seq<string>, diskPos: nat, dbPos: nat, changed: bool)
    requires StrictlySorted(disk) && StrictlySorted(recorded)
    requires Merged(disk, recorded, diskPos, dbPos, changed)
    requires diskPos < |disk| || dbPos < |recorded|
    ensures var next := Next(disk, recorded, diskPos, dbPos);
            && (next < 0 ==> diskPos < |disk| && Merged(disk, recorded, diskPos + 1, dbPos, true))
            && (next > 0 ==> dbPos < |recorded| && recorded[dbPos] !in disk
                             && Merged(disk, recorded, diskPos, dbPos + 1, true))
            && (next == 0 ==> diskPos < |disk| && dbPos < |recorded| && recorded[dbPos] in disk
                              && Merged(disk, recorded, diskPos + 1, dbPos + 1, changed))
  {
    var next := Next(disk, recorded, diskPos, dbPos);
    if next < 0 {
      OnlyInOne(disk, recorded, diskPos, dbPos);
      assert disk[diskPos] in Entries(disk) && disk[diskPos] !in Entries(recorded);
    } else if next > 0 {
      if diskPos < |disk| {
        CompareIsAntisymmetric(disk[diskPos], recorded[dbPos]);
      }
      OnlyInOne(recorded, disk, dbPos, diskPos);
      assert recorded[dbPos] in Entries(recorded) && recorded[dbPos] !in Entries(disk);
    } else {
      CompareIsZeroOnlyOnEqual(disk[diskPos], recorded[dbPos]);
      assert disk[..diskPos + 1] == disk[..diskPos] + [disk[diskPos]];
      assert recorded[..dbPos + 1] == recorded[..dbPos] + [recorded[dbPos]];
    }
  }

  // The name at i in one list comes before all that is left of the other, and is not in it.
  lemma OnlyInOne(a: seq<string>, b: seq<string>, i: nat, j: nat)
    requires StrictlySorted(a) && StrictlySorted(b) && i < |a| && j <= |b|
    requires j < |b| ==> Before(a[i], b[j])
    requires forall k | 0 <= k < j :: Before(b[k], a[i])
    ensures forall k | j <= k < |b| :: Before(a[i], b[k])
    ensures a[i] !in b
  {
    forall k | j <= k < |b| ensures Before(a[i], b[k]) {
      if j < k {
        BeforeIsTransitive(a[i], b[j], b[k]);
      }
    }
    CompareIsZeroOnlyOnEqual(a[i], a[i]);
  }

  lemma MergedToTheEnd(disk: seq<string>, recorded: seq<string>, changed: bool)
    requires Merged(disk, recorded, |disk|, |recorded|, changed)
    ensures changed <==> Entries(disk) != Entries(recorded)
  {
    assert disk[..|disk|] == disk && recorded[..|recorded|] == recorded;
  }

  lemma MissingInPrefix(name: string, recorded: seq<string>, disk: seq<string>, k: nat)
    requires k <= |recorded|
    ensures k < |recorded| && recorded[k] in disk ==> Missing(recorded[..k + 1], disk) == Missing(recorded[..k], disk)
    ensures k < |recorded| && recorded[k] !in disk ==>
              Paths(name, Missing(recorded[..k + 1], disk))
              == Paths(name, Missing(recorded[..k], disk)) + [name + "/" + recorded[k]]
  {
    if k < |recorded| {
      assert recorded[..k + 1][..k] == recorded[..k];
    }
  }

  lemma {:induction false} MissingDependsOnTheSet(recorded: seq<string>, disk: seq<string>, other: seq<string>)
    requires Entries(disk) == Entries(other)
    ensures Missing(recorded, disk) == Missing(recorded, other)
  {
    if recorded != [] {
      var last := recorded[|recorded| - 1];
      MissingDependsOnTheSet(recorded[..|recorded| - 1], disk, other);
      assert last in disk <==> last in Entries(disk);
      assert last in other <==> last in Entries(other);
    }
  }

  // ---------------------------------------------------------------- a second look at the same directory

  // After a run that was allowed to write, the sorted disk list is recorded, and a second run
  // with the same names on disk finds nothing to do; no other list is touched.
  lemma UpdatingConverges(table: Table, name: string, disk: seq<string>, other: string)
    requires Distinct(disk) && AllNulFree(disk)
    requires ListOf(table, name).Some? && StrictlySorted(ListOf(table, name).value)
    ensures var recorded := ListOf(table, name).value;
            var after := Updated(table, name, disk, recorded, OutcomeOf(disk, recorded, true, true));
            && ListOf(after, name) == Some(Sorted(disk))
            && (other != name ==> ListOf(after, other) == ListOf(table, other))
            && OutcomeOf(disk, Sorted(disk), true, true) == Noop
            && Updated(after, name, disk, Sorted(disk), Noop) == after
  {
    var recorded := ListOf(table, name).value;
    var paths := Paths(name, Missing(recorded, disk));
    SortingSorts(disk);
    SortedIsNulFree(disk);
    ListsSurvive(table, paths, name);
    ListsSurvive(table, paths, other);
    ListAfterWrite(WithoutTraces(table, paths), name, Sorted(disk), other);
    if Entries(disk) == Entries(recorded) {
      SortedListsAreUnique(recorded, Sorted(disk));
    }
    UpdatingTheUpdated(Updated(table, name, disk, recorded, OutcomeOf(disk, recorded, true, true)), name, disk);
  }

  lemma UpdatingTheUpdated(after: Table, name: string, disk: seq<string>)
    requires Distinct(disk)
    ensures OutcomeOf(disk, Sorted(disk), true, true) == Noop
    ensures Updated(after, name, disk, Sorted(disk), Noop) == after
  {
    SortingSorts(disk);
    NothingIsMissing(Sorted(disk), disk);
  }

  lemma NothingIsMissing(recorded: seq<string>, disk: seq<string>)
    requires Entries(recorded) == Entries(disk)
    ensures Missing(recorded, disk) == []
  {
    var missing := Missing(recorded, disk);
    assert missing != [] ==> missing[0] in Entries(missing);
    MissingAreTheRecordedNotOnDisk(recorded, disk);
  }

  lemma SortedIsNulFree(names: seq<string>)
    requires Distinct(names) && AllNulFree(names)
    ensures AllNulFree(Sorted(names))
  {
    SortingSorts(names);
    forall k | 0 <= k < |Sorted(names)| ensures NulFree(Sorted(names)[k]) {
      assert Sorted(names)[k] in Entries(Sorted(names));
    }
  }

  // The files whose traces go are exactly the recorded ones that are gone, each logged once.
  lemma EachVanishedFileIsLoggedOnce(name: string, recorded: seq<string>, disk: seq<string>, file: string)
    requires StrictlySorted(recorded)
    ensures name + "/" + file in Paths(name, Missing(recorded, disk)) <==> file in recorded && file !in disk
    ensures Distinct(Paths(name, Missing(recorded, disk)))
  {
    var missing := Missing(recorded, disk);
    StrictlySortedIsDistinct(recorded);
    MissingAreTheRecordedNotOnDisk(recorded, disk);
    assert file in Entries(missing) <==> file in recorded && file !in disk by {
      assert file in recorded <==> file in Entries(recorded);
      assert file in disk <==> file in Entries(disk);
    }
    forall i | 0 <= i < |missing| ensures (name + "/" + missing[i])[|name| + 1..] == missing[i] {
    }
    assert (name + "/" + file)[|name| + 1..] == file;
    if file in missing {
      var k :| 0 <= k < |missing| && missing[k] == file;
      assert Paths(name, missing)[k] == name + "/" + file;
    }
    forall i, j | 0 <= i < j < |missing| ensures Paths(name, missing)[i] != Paths(name, missing)[j] {
      assert missing[i] != missing[j];
    }
  }

  // ---------------------------------------------------------------- where the traces of a file are

  /** The path a file of a promised directory is known by: DepthSearch adds a slash where none is. */
  function Traced(name: string, file: string): string {
    FilePaths.AddSlash(name) + file
  }

  /** No slash ends the name already, and a slash is what is added. */
  predicate EndsOpen(name: string) {
    name == "" || (name[|name| - 1] != '/' && ('/' in name || '\\' !in name))
  }

  /** The path that is swept for a file is the one it is known by exactly if the name does not end in a slash. */
  lemma SweptPathIsThePathExactly(name: string, file: string)
    ensures Paths(name, [file])[0] == Traced(name, file) <==> EndsOpen(name)
  {
    if !EndsOpen(name) {
      if name[|name| - 1] == '/' {
        assert |Paths(name, [file])[0]| == |Traced(name, file)| + 1;
      } else {
        assert Paths(name, [file])[0][|name|] == '/' && Traced(name, file)[|name|] == '\\';
      }
    }
  }

  lemma SweptPathsAreOthers(name: string, names: seq<string>, file: string, k: nat)
    requires !EndsOpen(name) && '/' !in file && k < |names|
    ensures Paths(name, names)[k] != Traced(name, file)
  {
    var swept, traced := name + "/" + names[k], Traced(name, file);
    assert swept[|name|] == '/';
    if name[|name| - 1] == '/' {
      assert traced == name + file;
      assert |traced| > |name| ==> traced[|name|] == file[0];
    } else {
      assert traced[|name|] == '\\';
    }
  }

  /** So what is kept for a file of a directory whose name ends in a slash stays, whatever is swept there. */
  lemma TracesBehindASlashStay(table: Table, name: string, names: seq<string>, file: string, key: string)
    requires !EndsOpen(name) && '/' !in file && key in table && IsTraceOf(key, Traced(name, file))
    ensures key in WithoutTraces(table, Paths(name, names))
  {
    forall k | 0 <= k < |names| ensures Paths(name, names)[k] != Traced(name, file) {
      SweptPathsAreOthers(name, names, file, k);
    }
    OnlyTheirTracesAreLost(table, Paths(name, names), key, Traced(name, file));
  }

  /** What is kept for a vanished file goes exactly if the name of its directory does not end in a slash. */
  lemma TracesOfVanishedFilesGoExactly(table: Table, name: string, recorded: seq<string>, disk: seq<string>,
                                       file: string, key: string)
    requires file in recorded && file !in disk && '/' !in file
    requires key in table && IsTraceOf(key, Traced(name, file))
    ensures key !in WithoutTraces(table, Paths(name, Missing(recorded, disk))) <==> EndsOpen(name)
  {
    if EndsOpen(name) {
      SweptPathIsThePathExactly(name, file);
      TracesOfVanishedFilesGo(table, name, recorded, disk, file, key);
    } else {
      TracesBehindASlashStay(table, name, Missing(recorded, disk), file, key);
    }
  }

  /** The files of the root directory are such files, */
  lemma TracesOfRootFilesStay(table: Table, names: seq<string>, base: string, key: string)
    requires '/' !in base && key in table && IsTraceOf(key, "/" + base)
    ensures key in WithoutTraces(table, Paths("/", names))
  {
    TracesBehindASlashStay(table, "/", names, base, key);
  }

  /** and so is the file x of the promised directory "/tmp/", for which "/tmp//x" is swept. */
  lemma TracesBehindTmpStay(table: Table)
    requires StatKey("/tmp/x") in table
    ensures Traced("/tmp/", "x") == "/tmp/x" && Paths("/tmp/", Missing(["x"], [])) == ["/tmp//x"]
    ensures StatKey("/tmp/x") in WithoutTraces(table, Paths("/tmp/", Missing(["x"], [])))
  {
    assert "/tmp/" + "x" == "/tmp/x" && "/tmp/" + "/" + "x" == "/tmp//x";
    assert Missing([], []) == [] && Missing(["x"], []) == ["x"];
    TracesBehindASlashStay(table, "/tmp/", Missing(["x"], []), "x", StatKey("/tmp/x"));
  }

  /** What is kept for the paths directory/name goes when the name has vanished. */
  lemma TracesOfVanishedFilesGo(table: Table, name: string, recorded: seq<string>, disk: seq<string>, file: string,
                                key: string)
    requires file in recorded && file !in disk && IsTraceOf(key, name + "/" + file)
    ensures key !in WithoutTraces(table, Paths(name, Missing(recorded, disk)))
  {
    MissingAreTheRecordedNotOnDisk(recorded, disk);
    assert file in Entries(recorded) && file !in Entries(disk);
    assert file in Entries(Missing(recorded, disk));
    var k :| 0 <= k < |Missing(recorded, disk)| && Missing(recorded, disk)[k] == file;
    assert IsTraceOf(key, Paths(name, Missing(recorded, disk))[k]);
  }
}
