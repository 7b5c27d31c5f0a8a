// The directory lists of the changes database: their byte format, and keeping them sorted.
// After files_changes.c.
module DirectoryLists {
  import opened FiniteSets
  import opened Options
  import opened StringOrder

  const NUL := '\0'

  predicate NulFree(name: string) {
    NUL !in name
  }

  predicate AllNulFree(names: seq<string>) {
    forall k | 0 <= k < |names| :: NulFree(names[k])
  }

  // ---------------------------------------------------------------- the byte format

  /** Each name followed by a NUL. */
  function Encode(names: seq<string>): string {
    if names == [] then "" else Encode(names[..|names| - 1]) + names[|names| - 1] + [NUL]
  }

  /** memchr: the first NUL from i on, or the end. */
  function NulFrom(bytes: string, i: nat): (j: nat)
    requires i <= |bytes|
    ensures i <= j <= |bytes|
    ensures forall k | i <= k < j :: bytes[k] != NUL
    ensures j < |bytes| ==> bytes[j] == NUL
    decreases |bytes| - i
  {
    if i == |bytes| || bytes[i] == NUL then i else NulFrom(bytes, i + 1)
  }

  lemma TheFirstNul(bytes: string, i: nat, j: nat)
    requires i <= j < |bytes| && bytes[j] == NUL && forall k | i <= k < j :: bytes[k] != NUL
    ensures NulFrom(bytes, i) == j
  {
  }

  /** The names stored from position i on, unless the last one lacks its NUL. */
  function DecodeFrom(bytes: string, i: nat): Option<seq<string>>
    requires i <= |bytes|
    decreases |bytes| - i
  {
    if i == |bytes| then Some([])
    else
      var j := NulFrom(bytes, i);
      if j == |bytes| then None
      else
        var rest := DecodeFrom(bytes, j + 1);
        if rest.None? then None else Some([bytes[i..j]] + rest.value)
  }

  function Decode(bytes: string): Option<seq<string>> {
    DecodeFrom(bytes, 0)
  }

  lemma EncodeAppend(names: seq<string>, name: string)
    ensures Encode(names + [name]) == Encode(names) + name + [NUL]
  {
    assert (names + [name])[..|names|] == names;
  }

  lemma {:induction false} EncodeConcat(names: seq<string>, more: seq<string>)
    ensures Encode(names + more) == Encode(names) + Encode(more)
  {
    if more == [] {
      assert names + more == names;
    } else {
      var front, last := more[..|more| - 1], more[|more| - 1];
      EncodeConcat(names, front);
      assert names + more == (names + front) + [last];
      EncodeAppend(names + front, last);
    }
  }

  lemma EncodeFirst(first: string, rest: seq<string>)
    ensures Encode([first] + rest) == first + [NUL] + Encode(rest)
  {
    EncodeConcat([first], rest);
    EncodeAppend([], first);
    assert [] + [first] == [first];
  }

  // Decoding from the end of a prefix that is not looked at.
  lemma {:induction false} DecodeAfterPrefix(prefix: string, names: seq<string>)
    requires AllNulFree(names)
    ensures DecodeFrom(prefix + Encode(names), |prefix|) == Some(names)
    decreases |names|
  {
    var bytes := prefix + Encode(names);
    if names != [] {
      var first, rest := names[0], names[1..];
      EncodeFirst(first, rest);
      assert names == [first] + rest;
      var longer := prefix + first + [NUL];
      assert bytes == longer + Encode(rest);
      NameBehindPrefix(prefix, first, Encode(rest), bytes);
      NulIsFoundBehindName(bytes, |prefix|, first);
      DecodeAfterPrefix(longer, rest);
    }
  }

  lemma NameBehindPrefix(prefix: string, name: string, rest: string, bytes: string)
    requires bytes == prefix + name + [NUL] + rest
    ensures |prefix| + |name| < |bytes| && bytes[|prefix| + |name|] == NUL
    ensures bytes[|prefix|..|prefix| + |name|] == name
  {
    var head := prefix + name;
    var longer := head + [NUL];
    assert bytes[|head|] == longer[|head|];
    assert bytes[..|head|] == head;
  }

  lemma NulIsFoundBehindName(bytes: string, p: nat, name: string)
    requires NulFree(name) && p + |name| < |bytes|
    requires bytes[p..p + |name|] == name && bytes[p + |name|] == NUL
    ensures NulFrom(bytes, p) == p + |name|
  {
    assert forall k | p <= k < p + |name| :: bytes[k] == bytes[p..p + |name|][k - p];
    TheFirstNul(bytes, p, p + |name|);
  }

  // Reading back a written list returns it.
  lemma ReadingBackAWrittenList(names: seq<string>)
    requires AllNulFree(names)
    ensures Decode(Encode(names)) == Some(names)
  {
    DecodeAfterPrefix("", names);
    assert "" + Encode(names) == Encode(names);
  }

  lemma {:induction false} DecodedFrom(bytes: string, i: nat)
    requires i <= |bytes|
    ensures DecodeFrom(bytes, i).Some? <==> i == |bytes| || bytes[|bytes| - 1] == NUL
    ensures DecodeFrom(bytes, i).Some? ==>
              AllNulFree(DecodeFrom(bytes, i).value) && Encode(DecodeFrom(bytes, i).value) == bytes[i..]
    decreases |bytes| - i
  {
    if i < |bytes| {
      var j := NulFrom(bytes, i);
      if j < |bytes| {
        DecodedFrom(bytes, j + 1);
        var rest := DecodeFrom(bytes, j + 1);
        if rest.Some? {
          EncodedFrom(bytes, i, j, rest.value);
        }
      }
    }
  }

  lemma EncodedFrom(bytes: string, i: nat, j: nat, rest: seq<string>)
    requires i <= j < |bytes| && NulFrom(bytes, i) == j && Encode(rest) == bytes[j + 1..]
    ensures NulFree(bytes[i..j]) && Encode([bytes[i..j]] + rest) == bytes[i..]
  {
    EncodeFirst(bytes[i..j], rest);
    assert bytes[i..] == bytes[i..j] + [bytes[j]] + bytes[j + 1..];
  }

  // A value is readable exactly when it is empty or ends in NUL, and rewriting what was read
  // gives the same bytes.
  lemma RewritingAReadValue(bytes: string)
    ensures Decode(bytes).Some? <==> bytes == "" || bytes[|bytes| - 1] == NUL
    ensures Decode(bytes).Some? ==> AllNulFree(Decode(bytes).value) && Encode(Decode(bytes).value) == bytes
  {
    DecodedFrom(bytes, 0);
  }

  // ---------------------------------------------------------------- reading and writing, as written

  /** The loop of GetDirectoryListFromDatabase over the raw value. */
  method ReadEntries(rawEntries: string) returns (ok: bool, files: seq<string>)
    ensures ok <==> Decode(rawEntries).Some?
    ensures ok ==> files == Decode(rawEntries).value
  {
    files := [];
    var pos := 0;
    while pos < |rawEntries|
      invariant 0 <= pos <= |rawEntries|
      invariant Decode(rawEntries).Some? <==> DecodeFrom(rawEntries, pos).Some?
      invariant Decode(rawEntries).Some? ==> Decode(rawEntries).value == files + DecodeFrom(rawEntries, pos).value
    {
      var nullPos := NulFrom(rawEntries, pos);
      if nullPos == |rawEntries| {
        return false, files;
      }
      files := files + [rawEntries[pos..nullPos]];
      pos := nullPos + 1;
    }
    ok := true;
  }

  /** The two loops of FileChangesSetDirectoryList. */
  method WriteEntries(files: seq<string>) returns (rawEntries: array<char>)
    ensures fresh(rawEntries) && rawEntries[..] == Encode(files)
  {
    var size := EncodedSize(files);
    rawEntries := new char[size];
    var pos := 0;
    var c := 0;
    while c < |files|
      invariant 0 <= c <= |files| && pos == |Encode(files[..c])| <= rawEntries.Length
      invariant rawEntries[..pos] == Encode(files[..c])
    {
      NextEntryFits(files, c);
      CopyString(rawEntries, pos, files[c]);
      pos := pos + |files[c]| + 1;
      c := c + 1;
    }
    assert files[..c] == files;
    assert rawEntries[..] == rawEntries[..pos];
  }

  method EncodedSize(files: seq<string>) returns (size: nat)
    ensures size == |Encode(files)|
  {
    size := 0;
    for c := 0 to |files|
      invariant size == |Encode(files[..c])|
    {
      NextEntryFits(files, c);
      size := size + |files[c]| + 1;
    }
    assert files[..|files|] == files;
  }

  lemma NextEntryFits(files: seq<string>, c: nat)
    requires c < |files|
    ensures Encode(files[..c + 1]) == Encode(files[..c]) + files[c] + [NUL]
    ensures |Encode(files[..c])| + |files[c]| < |Encode(files)|
  {
    assert files[..c + 1] == files[..c] + [files[c]];
    EncodeAppend(files[..c], files[c]);
    EncodeConcat(files[..c + 1], files[c + 1..]);
    assert files[..c + 1] + files[c + 1..] == files;
  }

  /** strcpy into the buffer. */
  method CopyString(buffer: array<char>, pos: nat, s: string)
    requires pos + |s| < buffer.Length
    modifies buffer
    ensures buffer[..pos + |s| + 1] == old(buffer[..pos]) + s + [NUL]
  {
    var i := 0;
    while i < |s|
      invariant 0 <= i <= |s|
      invariant buffer[..pos + i] == old(buffer[..pos]) + s[..i]
    {
      buffer[pos + i] := s[i];
      i := i + 1;
    }
    buffer[pos + i] := NUL;
  }

  // ---------------------------------------------------------------- sorted lists

  predicate StrictlySorted(names: seq<string>) {
    forall i, j | 0 <= i < j < |names| :: Before(names[i], names[j])
  }

  /** Insertion at its place, and what SeqSort makes of a list. */
  function InsertSorted(name: string, names: seq<string>): seq<string> {
    if names == [] || Compare(name, names[0]) <= 0 then [name] + names
    else [names[0]] + InsertSorted(name, names[1..])
  }

  function Sorted(names: seq<string>): seq<string> {
    if names == [] then [] else InsertSorted(names[|names| - 1], Sorted(names[..|names| - 1]))
  }

  lemma {:induction false} InsertKeepsOrder(name: string, names: seq<string>)
    requires StrictlySorted(names) && name !in names
    ensures StrictlySorted(InsertSorted(name, names))
    ensures Entries(InsertSorted(name, names)) == Entries(names) + {name}
    ensures names != [] && Before(names[0], name) ==> InsertSorted(name, names)[0] == names[0]
  {
    if names != [] && Compare(name, names[0]) > 0 {
      InsertKeepsOrder(name, names[1..]);
      var rest := InsertSorted(name, names[1..]);
      CompareIsAntisymmetric(name, names[0]);
      forall k | 0 <= k < |rest| ensures Before(names[0], rest[k]) {
        assert rest[k] in Entries(rest);
        if rest[k] != name {
          var m :| 0 <= m < |names[1..]| && names[1..][m] == rest[k];
          assert names[m + 1] == rest[k];
        }
      }
      assert names == [names[0]] + names[1..];
    } else {
      if names != [] {
        CompareIsZeroOnlyOnEqual(name, names[0]);
        assert Before(name, names[0]);
        forall k | 0 <= k < |names| ensures Before(name, names[k]) {
          if k > 0 {
            BeforeIsTransitive(name, names[0], names[k]);
          }
        }
        CompareIsAntisymmetric(name, names[0]);
      }
    }
  }

  lemma {:induction false} SortingSorts(names: seq<string>)
    requires Distinct(names)
    ensures StrictlySorted(Sorted(names)) && Entries(Sorted(names)) == Entries(names)
  {
    if names != [] {
      var front, last := names[..|names| - 1], names[|names| - 1];
      SortingSorts(front);
      assert last !in Entries(front);
      assert last in Sorted(front) <==> last in Entries(Sorted(front));
      InsertKeepsOrder(last, Sorted(front));
      assert Entries(names) == Entries(front) + {last};
    }
  }

  lemma StrictlySortedIsDistinct(names: seq<string>)
    requires StrictlySorted(names)
    ensures Distinct(names)
  {
    forall i, j | 0 <= i < j < |names| ensures names[i] != names[j] {
      CompareIsZeroOnlyOnEqual(names[i], names[j]);
    }
  }

  lemma SortedRest(names: seq<string>)
    requires StrictlySorted(names) && names != []
    ensures StrictlySorted(names[1..]) && Entries(names[1..]) == Entries(names) - {names[0]}
  {
    StrictlySortedIsDistinct(names);
    assert names == [names[0]] + names[1..];
    forall x | x in Entries(names[1..]) ensures x in Entries(names) - {names[0]} {
      var i :| 0 <= i < |names[1..]| && names[1..][i] == x;
      assert names[i + 1] == x && names[0] != names[i + 1];
    }
  }

  // A strictly sorted list is determined by its set of names.
  lemma {:induction false} SortedListsAreUnique(a: seq<string>, b: seq<string>)
    requires StrictlySorted(a) && StrictlySorted(b) && Entries(a) == Entries(b)
    ensures a == b
  {
    assert a != [] ==> a[0] in Entries(a);
    assert b != [] ==> b[0] in Entries(b);
    if a != [] && b != [] {
      FirstsAgree(a, b);
      SortedRest(a);
      SortedRest(b);
      SortedListsAreUnique(a[1..], b[1..]);
      assert a == [a[0]] + a[1..] && b == [b[0]] + b[1..];
    }
  }

  lemma FirstsAgree(a: seq<string>, b: seq<string>)
    requires StrictlySorted(a) && StrictlySorted(b) && Entries(a) == Entries(b) && a != [] && b != []
    ensures a[0] == b[0]
  {
    assert a[0] in Entries(b) && b[0] in Entries(a);
    var i :| 0 <= i < |b| && b[i] == a[0];
    var j :| 0 <= j < |a| && a[j] == b[0];
    CompareIsAntisymmetric(a[0], b[0]);
    assert i > 0 ==> Before(b[0], b[i]);
    assert j > 0 ==> Before(a[0], a[j]);
  }

  /** SeqBinaryIndexOf; |files| stands for -1. */
  method SeqBinaryIndexOf(files: seq<string>, key: string) returns (at: nat)
    requires StrictlySorted(files)
    ensures at < |files| ==> files[at] == key
    ensures at >= |files| ==> key !in files
  {
    if |files| == 0 {
      return 0;
    }
    var low, high := 0, |files|;
    while low < high
      invariant 0 <= low <= high <= |files|
      invariant forall k | 0 <= k < low :: Before(files[k], key)
      invariant forall k | high <= k < |files| :: Before(key, files[k])
    {
      var middle := low + (high - low) / 2;
      var result := Compare(key, files[middle]);
      CompareIsZeroOnlyOnEqual(key, files[middle]);
      CompareIsAntisymmetric(key, files[middle]);
      if result == 0 {
        return middle;
      }
      if result > 0 {
        SmallerOnTheLeft(files, key, middle);
        low := middle + 1;
      } else {
        LargerOnTheRight(files, key, middle);
        high := middle;
      }
    }
    forall k | 0 <= k < |files| ensures files[k] != key {
      CompareIsZeroOnlyOnEqual(files[k], key);
      CompareIsZeroOnlyOnEqual(key, files[k]);
    }
    return |files|;
  }

  lemma SmallerOnTheLeft(files: seq<string>, key: string, middle: nat)
    requires StrictlySorted(files) && middle < |files| && Before(files[middle], key)
    ensures forall k | 0 <= k <= middle :: Before(files[k], key)
  {
    forall k | 0 <= k < middle ensures Before(files[k], key) {
      BeforeIsTransitive(files[k], files[middle], key);
    }
  }

  lemma LargerOnTheRight(files: seq<string>, key: string, middle: nat)
    requires StrictlySorted(files) && middle < |files| && Before(key, files[middle])
    ensures forall k | middle <= k < |files| :: Before(key, files[k])
  {
    forall k | middle < k < |files| ensures Before(key, files[k]) {
      BeforeIsTransitive(key, files[middle], files[k]);
    }
  }
}
