// Whether a relative link, read back as VerifyLink of files_links.c does, leads where it was asked to.
module LinkRoundTrips {
  import opened Options
  import opened Paths
  import opened RelativeLinks

  // ---------------------------------------------------------------- the text read back

  lemma {:induction false} SkippingUps(front: string, n: nat, rest: string, pop: nat)
    requires !HasAt(rest, 0, "../") && !HasAt(rest, 0, "./")
    ensures var text := front + Ups(n) + rest;
            |front| <= |text| && Skipped(text, |front|, pop) == (|front| + |Ups(n)|, pop + n)
    decreases n
  {
    var text := front + Ups(n) + rest;
    if n == 0 {
      assert text == front + rest;
    } else {
      assert text == front + "../" + Ups(n - 1) + rest;
      assert text[|front|..|front| + 3] == "../";
      SkippingUps(front + "../", n - 1, rest, pop + 1);
    }
  }

  lemma SkippingTheDot(text: string, pop: nat)
    requires |text| >= 2 && text[0] == '.' && text[1] == '/'
    ensures Skipped(text, 0, pop) == Skipped(text, 2, pop)
  {
    assert text[0..2] == "./";
    if |text| >= 3 {
      assert text[0..3][1] == text[1];
    }
  }

  lemma SkippingAllUps(ups: nat, rest: string, text: string) returns (i: nat)
    requires !HasAt(rest, 0, "../") && !HasAt(rest, 0, "./")
    requires text == "./" + Ups(ups) + rest
    ensures i <= |text| && text[i..] == rest && Skipped(text, 0, 1) == (i, 1 + ups)
  {
    i := 2 + |Ups(ups)|;
    SkippingUps("./", ups, rest, 1);
    SkippingTheDot(text, 1);
  }

  /** What AbsLinkPath makes of a link text: ups nodes dropped, then the rest. */
  lemma ReadingALinkText(d: string, ups: nat, rest: string, text: string)
    requires ups > 0
    requires !HasAt(rest, 0, "../") && !HasAt(rest, 0, "./")
    requires text == "./" + Ups(ups - 1) + rest
    ensures AbsoluteLink(d, text) == AddSlash(Popped(d, ups)) + rest
  {
    var i := SkippingAllUps(ups - 1, rest, text);
    assert Skipped(text, 0, 1) == (i, ups);
  }

  /** Where they first differ both go on absolutely: one with a slash, the other with quotes and a slash. */
  ghost predicate QuotesHideTheSlash(s: string, d: string)
    requires s != d
  {
    IsAbsoluteAt(s, Mismatch(s, d)) && IsAbsoluteAt(d, Mismatch(s, d))
  }

  // Quotes that run up to m run on from there.
  lemma {:induction false} QuotesRunOn(s: string, j: nat, m: nat)
    requires j <= m <= |s| && QuotesEnd(s, j) >= m
    ensures QuotesEnd(s, m) == QuotesEnd(s, j)
    decreases m - j
  {
    if j < m {
      QuotesRunOn(s, j + 1, m);
    }
  }

  /** Unless quotes hide a slash, the anchor is a slash both paths share. */
  lemma AnchorIsASharedSlash(s: string, d: string)
    requires Canonical(s) && d != "" && IsFileSep(d[0]) && s != d
    requires !QuotesHideTheSlash(s, d)
    ensures IsAbsoluteAt(s, 0) && IsAbsoluteAt(d, 0)
    ensures var k := Anchor(s, d, Mismatch(s, d)); k < Mismatch(s, d) && s[k] == '/'
  {
    var m := Mismatch(s, d);
    SlashIsAbsolute(s, 0);
    SlashIsAbsolute(d, 0);
    var k := Anchor(s, d, m);
    var q := QuotesEnd(s, k);
    assert forall j | 0 <= j < m :: s[j] == d[j] by {
      assert forall j | 0 <= j < m :: s[j] == s[..m][j] && d[j] == d[..m][j];
    }
    if q < m {
      SlashIsAbsolute(s, q);
      SlashIsAbsolute(d, q);
    } else {
      assert QuotesEnd(d, k) >= m;
      QuotesRunOn(s, k, m);
      QuotesRunOn(d, k, m);
      assert false;
    }
  }

  // What follows the anchor does not begin with "../" or "./".
  lemma NothingToSkip(s: string, k: nat)
    requires Canonical(s) && k < |s| && IsAbsoluteAt(s, k)
    ensures !HasAt(s[k + 1..], 0, "../") && !HasAt(s[k + 1..], 0, "./")
  {
    var rest := s[k + 1..];
    if s[k] == '"' {
      assert IsFileSep(s[k + 1]) || s[k + 1] == '"';
      assert rest[0] == s[k + 1];
      if |rest| >= 2 {
        assert rest[0..2][0] == rest[0];
      }
      if |rest| >= 3 {
        assert rest[0..3][0] == rest[0];
      }
    } else {
      assert IsFileSep(s[k]);
      if |rest| >= 2 {
        assert !DotsAt(s, k + 1);
        assert rest[0..2] == [s[k + 1], s[k + 2]];
      }
      if |rest| >= 3 {
        assert rest[0..3] == [s[k + 1], s[k + 2], s[k + 3]];
      }
    }
  }

  // The directory all the "../" lead up to.
  lemma WhereTheUpsLead(d: string, k: nat)
    requires d != "" && IsFileSep(d[0]) && SingleSlashes(d) && k <= |d| && IsAbsoluteAt(d, k)
    ensures Seps(d, k, |d|) > 0
    ensures Popped(d, Seps(d, k, |d|)) == DirAbove(d, QuotesEnd(d, k))
    ensures AddSlash(DirAbove(d, QuotesEnd(d, k))) == d[..QuotesEnd(d, k)] + "/"
  {
    var q := QuotesEnd(d, k);
    DroppingNodes(d, k, q);
    if q > 0 {
      var top := d[..q];
      assert top[0] == '/' && top[q - 1] == d[q - 1];
    }
  }

  lemma {:induction false} SepsGrow(d: string, k: nat, q: nat, e: nat)
    requires k <= q < e <= |d| && IsFileSep(d[q])
    ensures Seps(d, k, e) > 0
  {
    if q < e - 1 {
      SepsGrow(d, k, q, e - 1);
    }
  }

  /** What AbsLinkPath makes of the text of a link. */
  lemma WhatTheTextSays(s: string, d: string, k: nat)
    requires Canonical(s) && k < |s| && IsAbsoluteAt(s, k) && k <= |d| && IsAbsoluteAt(d, k)
    requires LinkText(s, d, k).Some?
    ensures Seps(d, k, |d|) > 0
    ensures TargetOf(d, LinkText(s, d, k).value) == AddSlash(Popped(d, Seps(d, k, |d|))) + s[k + 1..]
  {
    SepsGrow(d, k, QuotesEnd(d, k), |d|);
    NothingToSkip(s, k);
    ReadingALinkText(d, Seps(d, k, |d|), s[k + 1..], LinkText(s, d, k).value);
  }

  /** The link leads from the first slash of the link's own path at or after k down the rest of s. */
  lemma WhereALinkLeads(s: string, d: string, k: nat)
    requires Canonical(s) && k < |s| && IsAbsoluteAt(s, k)
    requires d != "" && IsFileSep(d[0]) && SingleSlashes(d) && k <= |d| && IsAbsoluteAt(d, k)
    requires LinkText(s, d, k).Some?
    ensures TargetOf(d, LinkText(s, d, k).value) == d[..QuotesEnd(d, k)] + "/" + s[k + 1..]
  {
    WhereTheUpsLead(d, k);
    WhatTheTextSays(s, d, k);
  }

  // ---------------------------------------------------------------- repeated slashes in the link's own path

  /** Behind k no two slashes follow each other. */
  predicate SingleSlashesFrom(d: string, k: nat) {
    forall j | k < j < |d| :: IsFileSep(d[j]) ==> !IsFileSep(d[j - 1])
  }

  lemma {:induction false} SlashesBecomeSingle(d: string)
    ensures SingleSlashes(WithoutRedundantSlashes(d))
    ensures var single := WithoutRedundantSlashes(d); d != "" ==> single != "" && single[|single| - 1] == d[|d| - 1]
    decreases |d|
  {
    if |d| > 1 {
      SlashesBecomeSingle(d[..|d| - 1]);
    }
  }

  /** Up to a position in front of which all slashes are single nothing is dropped. */
  lemma {:induction false} TheFrontStays(d: string, e: nat)
    requires e <= |d| && SingleSlashes(d[..e])
    ensures e <= |WithoutRedundantSlashes(d)| && WithoutRedundantSlashes(d)[..e] == d[..e]
    decreases |d|
  {
    if e == |d| {
      assert d[..e] == d;
      NothingRedundant(d);
    } else if |d| > 1 {
      var front := d[..|d| - 1];
      assert front[..e] == d[..e];
      TheFrontStays(front, e);
    }
  }

  lemma SepsOfOneMore(front: string, c: char, k: nat)
    requires k <= |front|
    ensures Seps(front + [c], k, |front| + 1) == Seps(front, k, |front|) + if IsFileSep(c) then 1 else 0
  {
    SepsOfAPrefix(front + [c], k, |front|, |front|);
    assert (front + [c])[..|front|] == front;
  }

  /** Every repeated slash behind k counts, though it is dropped. */
  lemma {:induction false} RepeatedSlashesCount(d: string, k: nat)
    requires k < |d| && SingleSlashes(d[..k + 1])
    ensures var single := WithoutRedundantSlashes(d);
            && k < |single| && Seps(single, k, |single|) <= Seps(d, k, |d|)
            && (Seps(single, k, |single|) == Seps(d, k, |d|) <==> SingleSlashesFrom(d, k))
    decreases |d|
  {
    if k + 1 == |d| {
      assert d[..k + 1] == d;
      NothingRedundant(d);
    } else {
      var front, c := d[..|d| - 1], d[|d| - 1];
      assert front[..k + 1] == d[..k + 1] && front + [c] == d;
      RepeatedSlashesCount(front, k);
      SepsOfOneMore(front, c, k);
      SepsOfOneMore(WithoutRedundantSlashes(front), c, k);
      assert SingleSlashesFrom(d, k)
        <==> SingleSlashesFrom(front, k) && !(IsFileSep(c) && IsFileSep(front[|front| - 1]));
    }
  }

  lemma PoppingSingleSlashes(d: string, n: nat)
    requires n > 0
    ensures Popped(d, n) == Popped(WithoutRedundantSlashes(d), n)
  {
    SlashesBecomeSingle(d);
    NothingRedundant(WithoutRedundantSlashes(d));
  }

  /** f, n times. */
  function Repeated(f: string -> string, path: string, n: nat): string
    decreases n
  {
    if n == 0 then path else Repeated(f, f(path), n - 1)
  }

  lemma {:induction false} RepeatedInTurn(f: string -> string, path: string, a: nat, b: nat)
    ensures Repeated(f, path, a + b) == Repeated(f, Repeated(f, path, a), b)
    decreases a
  {
    if a > 0 {
      RepeatedInTurn(f, f(path), a - 1, b);
    }
  }

  const CHOP: string -> string := path => match ChopLastNode(path) case None => path case Some(up) => up

  lemma {:induction false} PoppingIsRepeated(path: string, n: nat)
    ensures Popped(path, n) == Repeated(CHOP, path, n)
    decreases n
  {
    if n > 0 {
      PoppingOne(path, n - 1, CHOP(path));
      PoppingIsRepeated(CHOP(path), n - 1);
    }
  }

  lemma PoppingInTurn(path: string, a: nat, b: nat)
    ensures Popped(path, a + b) == Popped(Popped(path, a), b)
  {
    PoppingIsRepeated(path, a + b);
    PoppingIsRepeated(path, a);
    PoppingIsRepeated(Popped(path, a), b);
    RepeatedInTurn(CHOP, path, a, b);
  }

  lemma PoppingOne(path: string, n: nat, up: string)
    requires up == match ChopLastNode(path) case None => path case Some(up) => up
    ensures Popped(path, 1 + n) == Popped(up, n)
  {
  }

  lemma PrefixesOfSingleSlashes(s: string, e: nat)
    requires e <= |s| && SingleSlashes(s)
    ensures SingleSlashes(s[..e])
  {
    forall j | 0 < j < e ensures IsFileSep(s[..e][j]) ==> !IsFileSep(s[..e][j - 1]) {
      assert s[..e][j] == s[j] && s[..e][j - 1] == s[j - 1];
    }
  }

  lemma SlashAtTheEnd(path: string)
    requires path != "" && IsFileSep(path[0])
    ensures var p := AddSlash(path);
            p != "" && p[|p| - 1] == '/' && |p| == |path| + if IsFileSep(path[|path| - 1]) then 0 else 1
  {
    assert '/' in path;
  }

  lemma ChoppingShortens(path: string)
    requires path != "" && IsFileSep(path[0]) && SingleSlashes(path)
    ensures ChopLastNode(path).Some?
    ensures var up := ChopLastNode(path).value;
            && up != "" && IsFileSep(up[0]) && SingleSlashes(up) && |AddSlash(up)| <= |AddSlash(path)|
            && (|path| > 1 && !IsFileSep(path[|path| - 1]) ==> |AddSlash(up)| < |AddSlash(path)|)
  {
    ChopOnSingleSlashes(path);
    PrefixesOfSingleSlashes(path, LastSep(path));
    SlashAtTheEnd(path);
    SlashAtTheEnd(ChopLastNode(path).value);
  }

  /** Dropping nodes shortens a path, but for the root. */
  lemma {:induction false} PoppingShortens(path: string, n: nat)
    requires path != "" && IsFileSep(path[0]) && SingleSlashes(path)
    ensures |AddSlash(Popped(path, n))| <= |AddSlash(path)|
    ensures n > 0 && |path| > 1 && !IsFileSep(path[|path| - 1]) ==> |AddSlash(Popped(path, n))| < |AddSlash(path)|
    ensures var p := AddSlash(Popped(path, n)); p != "" && p[|p| - 1] == '/'
    decreases n
  {
    if n == 0 {
      SlashAtTheEnd(path);
    } else {
      ChoppingShortens(path);
      PoppingShortens(ChopLastNode(path).value, n - 1);
      PoppingOne(path, n - 1, ChopLastNode(path).value);
    }
  }

  lemma SingleSlashesStay(d: string, k: nat)
    requires d != "" && IsFileSep(d[0]) && k <= |d| && IsAbsoluteAt(d, k) && SingleSlashes(d[..QuotesEnd(d, k) + 1])
    ensures var single, q := WithoutRedundantSlashes(d), QuotesEnd(d, k);
            && q < |single| && QuotesEnd(single, k) == q && single[q] == d[q] && IsFileSep(single[0])
            && single[..q] == d[..q] && SingleSlashes(d[..k + 1])
  {
    var single, q := WithoutRedundantSlashes(d), QuotesEnd(d, k);
    TheFrontStays(d, q + 1);
    assert forall j | 0 <= j <= q :: single[j] == single[..q + 1][j] == d[..q + 1][j] == d[j];
    QuotesEndThere(single, k, q);
    PrefixesOfSingleSlashes(d[..q + 1], k + 1);
    assert d[..q + 1][..k + 1] == d[..k + 1];
  }

  /** More "../" than there are directories lead further up, by as many as slashes are repeated. */
  lemma WhereMoreUpsLead(d: string, k: nat) returns (more: nat)
    requires d != "" && IsFileSep(d[0]) && k <= |d| && IsAbsoluteAt(d, k) && SingleSlashes(d[..QuotesEnd(d, k) + 1])
    ensures Popped(d, Seps(d, k, |d|)) == Popped(DirAbove(d, QuotesEnd(d, k)), more)
    ensures more == 0 <==> SingleSlashesFrom(d, k)
  {
    var single := WithoutRedundantSlashes(d);
    SingleSlashesStay(d, k);
    RepeatedSlashesCount(d, k);
    SlashesBecomeSingle(d);
    WhereTheUpsLead(single, k);
    var n := Seps(single, k, |single|);
    more := Seps(d, k, |d|) - n;
    PoppingSingleSlashes(d, n + more);
    PoppingInTurn(single, n, more);
  }

  lemma {:induction false} QuotesEndThere(f: string, k: nat, q: nat)
    requires k <= q < |f| && f[q] != '"' && forall j | k <= j < q :: f[j] == '"'
    ensures QuotesEnd(f, k) == q
    decreases q - k
  {
    if k < q {
      QuotesEndThere(f, k + 1, q);
    }
  }

  lemma SharedPrefixAndRest(s: string, d: string, k: nat, m: nat)
    requires k < m <= |s| && m <= |d| && s[..m] == d[..m] && s[k] == '/'
    ensures d[k] == '/' && d[..k] + "/" + s[k + 1..] == s
  {
    assert d[k] == d[..m][k] == s[..m][k];
    assert d[..k] == d[..m][..k] == s[..m][..k] == s[..k];
    assert s == s[..k] + [s[k]] + s[k + 1..];
  }

  lemma SharedFront(s: string, d: string, m: nat)
    requires Canonical(s) && m <= |s| && m <= |d| && s[..m] == d[..m]
    ensures SingleSlashes(d[..m]) && forall j | 0 <= j < m :: s[j] == d[j]
  {
    PrefixesOfSingleSlashes(s, m);
    assert forall j | 0 <= j < m :: s[j] == s[..m][j] == d[..m][j] == d[j];
  }

  /** Behind a shared slash the way back is the way up to it, or further up if slashes are repeated. */
  lemma BackFromASharedSlash(s: string, d: string, k: nat, m: nat)
    requires Canonical(s) && k < m <= |s| && m <= |d| && s[..m] == d[..m] && s[k] == '/'
    ensures d[k] == '/' && IsAbsoluteAt(d, k) && IsFileSep(d[0])
    ensures AddSlash(Popped(d, Seps(d, k, |d|))) + s[k + 1..] == s <==> k == 0 || SingleSlashesFrom(d, k)
  {
    SharedFront(s, d, m);
    SlashIsAbsolute(d, k);
    SharedPrefixAndRest(s, d, k, m);
    UpToASharedSlash(s, d, k, m);
    assert d[..k] + "/" + s[k + 1..] == s;
  }

  /** The way up to it ends in front of it. */
  lemma UpToASharedSlash(s: string, d: string, k: nat, m: nat)
    requires Canonical(s) && k < m <= |s| && m <= |d| && s[..m] == d[..m] && s[k] == '/'
    requires IsAbsoluteAt(d, k) && IsFileSep(d[0])
    ensures var up := AddSlash(Popped(d, Seps(d, k, |d|)));
            if k == 0 || SingleSlashesFrom(d, k) then up == d[..k] + "/" else |up| <= k
  {
    SharedFront(s, d, m);
    PrefixesOfSingleSlashes(d[..m], k + 1);
    assert d[..m][..k + 1] == d[..k + 1];
    assert QuotesEnd(d, k) == k;
    var more := WhereMoreUpsLead(d, k);
    if k == 0 {
      RootStays(more);
    } else {
      PrefixesOfSingleSlashes(d[..k + 1], k);
      assert d[..k + 1][..k] == d[..k];
      UpFromADirectory(d[..k], more);
    }
  }

  lemma UpFromADirectory(top: string, more: nat)
    requires |top| > 0 && IsFileSep(top[0]) && SingleSlashes(top) && |top| > 1 && !IsFileSep(top[|top| - 1])
    ensures AddSlash(Popped(top, more)) == top + "/" <==> more == 0
    ensures more > 0 ==> |AddSlash(Popped(top, more))| <= |top|
  {
    PoppingShortens(top, more);
    SlashAtTheEnd(top);
  }

  lemma {:induction false} RootStays(n: nat)
    ensures Popped("/", n) == "/"
  {
    if n > 0 {
      ChopOnSingleSlashes("/");
      RootStays(n - 1);
    }
  }

  /** A path in quotes never leaves them. */
  lemma {:induction false} QuotesStayInFront(path: string, n: nat)
    requires path != "" && path[0] == '"' && IsAbsoluteAt(path, 0)
    ensures var p := Popped(path, n); p != "" && p[0] == '"' && IsAbsoluteAt(p, 0)
    decreases n
  {
    if n > 0 {
      ChoppingStaysInQuotes(path);
      QuotesStayInFront(ChopLastNode(path).value, n - 1);
    }
  }

  lemma ChoppingStaysInQuotes(path: string)
    requires path != "" && path[0] == '"' && IsAbsoluteAt(path, 0)
    ensures ChopLastNode(path).Some?
    ensures var up := ChopLastNode(path).value; up != "" && up[0] == '"' && IsAbsoluteAt(up, 0)
  {
    var q, single := QuotesEnd(path, 0), WithoutRedundantSlashes(path);
    TheFrontStays(path, q + 1);
    assert forall j | 0 <= j <= q :: single[j] == single[..q + 1][j] == path[..q + 1][j] == path[j];
    QuotesEndThere(single, 0, q);
    assert LastSep(single) >= q && FirstSep(single) == q;
    var up := ChopLastNode(path).value;
    assert q < |up| && forall j | 0 <= j <= q :: up[j] == single[j];
    QuotesEndThere(up, 0, q);
  }

  /** Where quotes hide a slash the link never leads back. */
  lemma AstrayAtTheMismatch(s: string, d: string, m: nat)
    requires Canonical(s) && m < |s| && m < |d| && s[..m] == d[..m] && s[m] != d[m]
    requires IsAbsoluteAt(s, m) && IsAbsoluteAt(d, m)
    ensures AddSlash(Popped(d, Seps(d, m, |d|))) + s[m + 1..] != s
  {
    SharedFront(s, d, m);
    if d[0] == '"' {
      AstrayInQuotes(s, d, m);
    } else if d[m] == '"' {
      AstrayBehindQuotes(s, d, m);
      assert |AddSlash(Popped(d, Seps(d, m, |d|))) + s[m + 1..]| != |s|;
    } else {
      AstrayBehindASlash(s, d, m);
    }
  }

  lemma AstrayInQuotes(s: string, d: string, m: nat)
    requires Canonical(s) && m < |s| && m < |d| && s[..m] == d[..m] && d[0] == '"' && IsAbsoluteAt(d, m)
    ensures AddSlash(Popped(d, Seps(d, m, |d|))) + s[m + 1..] != s
  {
    SharedFront(s, d, m);
    QuotesStayInFront(d, Seps(d, m, |d|));
  }

  lemma QuotesBehindTheFront(s: string, d: string, m: nat)
    requires Canonical(s) && 0 < m < |s| && m < |d| && s[..m] == d[..m] && d[m] == '"' && s[m] == '/'
    requires IsAbsoluteAt(d, m)
    ensures IsFileSep(d[0]) && !IsFileSep(d[m - 1]) && SingleSlashes(d[..QuotesEnd(d, m) + 1])
    ensures LastSep(d[..QuotesEnd(d, m)]) < m - 1
  {
    var q := QuotesEnd(d, m);
    SharedFront(s, d, m);
    var front := d[..q + 1];
    forall j | 0 < j < |front| ensures IsFileSep(front[j]) ==> !IsFileSep(front[j - 1]) {
      assert front[j] == d[j] && front[j - 1] == d[j - 1];
    }
    var top := d[..q];
    assert forall j | 0 <= j < q :: top[j] == d[j];
    assert IsFileSep(top[0]);
  }

  /** The quotes, or less than what stands in front of them, remain. */
  lemma AstrayBehindQuotes(s: string, d: string, m: nat)
    requires Canonical(s) && 0 < m < |s| && m < |d| && s[..m] == d[..m] && d[m] == '"' && s[m] == '/'
    requires IsAbsoluteAt(d, m)
    ensures |AddSlash(Popped(d, Seps(d, m, |d|)))| != m + 1
  {
    var q := QuotesEnd(d, m);
    QuotesBehindTheFront(s, d, m);
    var more := WhereMoreUpsLead(d, m);
    PrefixesOfSingleSlashes(d[..q + 1], q);
    assert d[..q + 1][..q] == d[..q] && d[..q][0] == d[0] && QuotesEnd(d, m) > m;
    UpFromQuotes(d[..q], m, more);
  }

  lemma UpFromQuotes(top: string, m: nat, more: nat)
    requires top != "" && IsFileSep(top[0]) && SingleSlashes(top) && LastSep(top) + 1 < m < |top|
    ensures |AddSlash(Popped(top, more))| != m + 1
  {
    if more > 0 {
      LessThanTheLastNode(top, m, more);
    } else {
      SlashAtTheEnd(top);
    }
  }

  lemma LessThanTheLastNode(top: string, m: nat, more: nat)
    requires top != "" && IsFileSep(top[0]) && SingleSlashes(top) && LastSep(top) + 1 < m && more > 0
    ensures |AddSlash(Popped(top, more))| < m + 1
  {
    ChopOnSingleSlashes(top);
    PrefixesOfSingleSlashes(top, LastSep(top));
    var up := ChopLastNode(top).value;
    PoppingOne(top, more - 1, up);
    PoppingShortens(up, more - 1);
    SlashAtTheEnd(up);
  }

  /** Behind the first slash d has alone the way up ends in a slash, where s has a quote. */
  lemma AstrayBehindASlash(s: string, d: string, m: nat)
    requires Canonical(s) && m < |s| && m < |d| && s[..m] == d[..m] && d[0] == '/' && d[m] == '/' && s[m] == '"'
    ensures AddSlash(Popped(d, Seps(d, m, |d|))) + s[m + 1..] != s
  {
    var n, single := Seps(d, m, |d|), WithoutRedundantSlashes(d);
    SepsGrow(d, m, m, |d|);
    PoppingSingleSlashes(d, n);
    SlashesBecomeSingle(d);
    TheFrontStays(d, 1);
    assert single[0] == single[..1][0] == d[..1][0];
    PoppingShortens(single, n);
    var up := AddSlash(Popped(d, n));
    if |up| == m + 1 {
      assert (up + s[m + 1..])[m] == '/';
    }
  }

  /**
   * The target VerifyLink checks is the one asked for exactly if quotes hide no slash and, unless the
   * paths part at the root, the link's own path repeats no slash from the anchor on.
   */
  lemma LinkLeadsBackExactly(source: string, d: string)
    requires source != "" && source[0] != '.' && IsAbsoluteAt(d, 0)
    requires WrittenLink(d, source).Some?
    ensures Compressed(source).Some? && IsAbsoluteAt(Compressed(source).value, 0) && Compressed(source).value != d
    ensures var s := Compressed(source).value;
            var k := Anchor(s, d, Mismatch(s, d));
            TargetOf(d, WrittenLink(d, source).value) == s <==>
            !QuotesHideTheSlash(s, d) && (k == 0 || SingleSlashesFrom(d, k))
  {
    var s := Compressed(source).value;
    CompressionIsCanonical(source);
    CompressedGoesOnAbsolutely(source);
    var m := Mismatch(s, d);
    var k := Anchor(s, d, m);
    WhatTheTextSays(s, d, k);
    if QuotesHideTheSlash(s, d) {
      AstrayAtTheMismatch(s, d, m);
    } else {
      AnchorIsASharedSlash(s, d);
      BackFromASharedSlash(s, d, k, m);
    }
  }

  /** Without quotes a relative link leads to the compressed source exactly if no slash is repeated there. */
  lemma RelativeLinksRoundTrip(source: string, d: string)
    requires source != "" && source[0] != '.' && IsAbsoluteAt(d, 0) && '"' !in d
    requires WrittenLink(d, source).Some? && '"' !in Compressed(source).value
    ensures IsAbsoluteAt(Compressed(source).value, 0) && Compressed(source).value != d
    ensures var s := Compressed(source).value;
            var k := Anchor(s, d, Mismatch(s, d));
            TargetOf(d, WrittenLink(d, source).value) == s <==> k == 0 || SingleSlashesFrom(d, k)
    ensures SingleSlashes(d) ==> TargetOf(d, WrittenLink(d, source).value) == Compressed(source).value
  {
    LinkLeadsBackExactly(source, d);
  }

  lemma CompressingOneNode(dest: string, src: string, i: nat, e: nat, node: string, next: string)
    requires i < e <= |src| && src[i..e] == node && !IsFileSep(src[i]) && NodeEnd(src, i) == e && e - i <= NODE_LIMIT
    requires node != "." && node != ".." && JoinPath(AddSlash(dest), node) == Some(next)
    ensures CompressFrom(dest, src, i) == CompressFrom(next, src, e)
  {
  }

  lemma PlainPathIsCompressed()
    ensures Compressed("/r/b") == Some("/r/b")
  {
    var src := "/r/b";
    assert "/" + "r" == "/r";
    assert NodeEnd(src, 2) == 2 && NodeEnd(src, 1) == 2;
    CompressingOneNode("/", src, 1, 2, "r", "/r");
    assert "/r" + "/" + "b" == src;
    assert NodeEnd(src, 4) == 4 && NodeEnd(src, 3) == 4;
    CompressingOneNode("/r", src, 3, 4, "b", src);
    assert src[..1] == "/";
  }

  lemma AnchorOfTheRepeatedSlash()
    ensures var s, d := "/r/b", "/r/a//c";
            IsAbsoluteAt(s, 0) && IsAbsoluteAt(d, 0) && Mismatch(s, d) == 3 && Anchor(s, d, 3) == 2
            && IsAbsoluteAt(s, 2) && IsAbsoluteAt(d, 2)
  {
    var s, d := "/r/b", "/r/a//c";
    assert s[..3] == d[..3];
    MismatchIsFirst(s, d, 3);
    assert QuotesEnd(s, 3) == 3;
    SlashIsAbsolute(s, 0);
    SlashIsAbsolute(d, 0);
    SlashIsAbsolute(s, 2);
    SlashIsAbsolute(d, 2);
  }

  lemma TextOverTheRepeatedSlash()
    ensures Seps("/r/a//c", 2, 7) == 3 && LinkText("/r/b", "/r/a//c", 2) == Some("./../../b")
    ensures "./" + Ups(2) + "b" == "./../../b"
  {
    var s, d := "/r/b", "/r/a//c";
    assert Seps(d, 2, 4) == 1 && Seps(d, 2, 6) == 3;
    assert Ups(1) == "../" && Ups(2) == "../../";
    assert s[3..] == "b" && "./" + Ups(2) + "b" == "./../../b";
  }

  lemma WithoutTheRepeatedSlash()
    ensures WithoutRedundantSlashes("/r/a//c") == "/r" + "/" + "a" + "/" + "c"
  {
    NothingRedundant("/r/a/");
    assert "/r/a//"[..5] == "/r/a/";
    assert WithoutRedundantSlashes("/r/a//") == "/r/a/";
    assert "/r/a//c"[..6] == "/r/a//";
  }

  lemma LastSepThere(path: string, p: nat)
    requires p < |path| && IsFileSep(path[p]) && forall j | p < j < |path| :: !IsFileSep(path[j])
    ensures LastSep(path) == p
  {
  }

  lemma PoppingTheLastNode(top: string, node: string, n: nat)
    requires |top| > 1 && IsFileSep(top[0]) && SingleSlashes(top) && !IsFileSep(top[|top| - 1]) && IsNode(node)
    ensures SingleSlashes(top + "/" + node) && Popped(top + "/" + node, 1 + n) == Popped(top, n)
  {
    var path := top + "/" + node;
    assert forall j | |top| < j < |path| :: path[j] == node[j - |top| - 1];
    LastSepThere(path, |top|);
    ChopOnSingleSlashes(path);
    assert path[..|top|] == top;
    PoppingOne(path, n, top);
  }

  /** Three nodes go, whatever slashes are repeated. */
  lemma PoppingThreeNodes(d: string, top: string, middle: string, last: string)
    requires |top| > 1 && IsFileSep(top[0]) && IsNode(top[1..]) && IsNode(middle) && IsNode(last)
    requires WithoutRedundantSlashes(d) == top + "/" + middle + "/" + last
    ensures AddSlash(Popped(d, 3)) == "/"
  {
    assert forall j | 1 <= j < |top| :: top[j] == top[1..][j - 1];
    LastSepThere(top, 0);
    PoppingSingleSlashes(d, 3);
    PoppingTheLastNode(top, middle, 1);
    PoppingTheLastNode(top + "/" + middle, last, 2);
    ChopOnSingleSlashes(top);
    PoppingOne(top, 0, "/");
  }

  /** The link from /r/a//c to /r/b leads to /b. */
  lemma RepeatedSlashesLeadAstray()
    ensures IsAbsoluteAt("/r/a//c", 0) && Compressed("/r/b") == Some("/r/b")
    ensures WrittenLink("/r/a//c", "/r/b") == Some("./../../b") && TargetOf("/r/a//c", "./../../b") == "/b"
  {
    PlainPathIsCompressed();
    AnchorOfTheRepeatedSlash();
    TextOverTheRepeatedSlash();
    ReadOverTheRepeatedSlash();
  }

  lemma ReadOverTheRepeatedSlash()
    ensures TargetOf("/r/a//c", "./../../b") == "/b"
  {
    WithoutTheRepeatedSlash();
    PoppingThreeNodes("/r/a//c", "/r", "a", "c");
    LeadingToALeaf("/r/a//c", 3, "b", "./" + Ups(2) + "b");
    TextOverTheRepeatedSlash();
    assert "/" + "b" == "/b";
  }

  lemma LeadingToALeaf(d: string, ups: nat, leaf: string, text: string)
    requires ups > 0 && AddSlash(Popped(d, ups)) == "/" && |leaf| == 1 && text == "./" + Ups(ups - 1) + leaf
    ensures TargetOf(d, text) == "/" + leaf
  {
    ReadingALinkText(d, ups, leaf, text);
    assert text[0] == '.';
  }

  lemma QuotedPathIsCompressed()
    ensures Compressed("/a\"/b") == Some("/a\"/b")
  {
    var src := "/a\"/b";
    assert "/" + "a\"" == "/a\"";
    assert NodeEnd(src, 3) == 3 && NodeEnd(src, 2) == 3 && NodeEnd(src, 1) == 3;
    CompressingOneNode("/", src, 1, 3, "a\"", "/a\"");
    assert "/a\"" + "/" + "b" == src;
    assert NodeEnd(src, 5) == 5 && NodeEnd(src, 4) == 5;
    CompressingOneNode("/a\"", src, 4, 5, "b", src);
    assert src[..1] == "/";
  }

  lemma AnchorBehindTheQuote()
    ensures var s, d := "/a\"/b", "/a/c";
            IsAbsoluteAt(s, 0) && IsAbsoluteAt(d, 0) && Mismatch(s, d) == 2 == Anchor(s, d, 2)
            && QuotesEnd(d, 2) == 2 && IsAbsoluteAt(s, 2) && IsAbsoluteAt(d, 2)
  {
    var s, d := "/a\"/b", "/a/c";
    assert s[..2] == d[..2];
    MismatchIsFirst(s, d, 2);
    assert QuotesEnd(s, 2) == 3;
    SlashIsAbsolute(s, 0);
    SlashIsAbsolute(d, 0);
    SlashIsAbsolute(d, 2);
  }

  lemma TextBehindTheQuote()
    ensures LinkText("/a\"/b", "/a/c", 2) == Some(".//b")
  {
    var s, d := "/a\"/b", "/a/c";
    NoSeps(d, 2, 3, 4);
    assert Seps(d, 2, 3) == 1;
    assert s[3..] == "/b" && "./" + Ups(0) + "/b" == ".//b";
  }

  /** With a quote before a slash, VerifyLink checks another path. */
  lemma QuotesLeadAstray()
    ensures IsAbsoluteAt("/a/c", 0) && Compressed("/a\"/b") == Some("/a\"/b")
    ensures WrittenLink("/a/c", "/a\"/b") == Some(".//b") && TargetOf("/a/c", ".//b") == "/a//b"
  {
    var s, d := "/a\"/b", "/a/c";
    QuotedPathIsCompressed();
    AnchorBehindTheQuote();
    TextBehindTheQuote();
    CompressionIsCanonical(s);
    assert s[3..] == "/b" && d[..2] + "/" + "/b" == "/a//b";
    WhereALinkLeads(s, d, 2);
  }

  /**
   * The second scan finds a place to stop inside both strings exactly when there is a source and
   * the link's own path is absolute.
   */
  lemma SecondScanStaysInsideExactly(s: string, d: string)
    requires s != d && (s == "" || Canonical(s))
    ensures (exists j | 0 <= j <= Mismatch(s, d) :: IsAbsoluteAt(s, j) && IsAbsoluteAt(d, j))
       <==> s != "" && IsAbsoluteAt(d, 0)
  {
    var m := Mismatch(s, d);
    if s == "" {
      assert m == 0 && !IsAbsoluteAt(s, 0);
    } else {
      SlashIsAbsolute(s, 0);
      if m > 0 {
        assert d[0] == d[..m][0] == s[..m][0] == s[0];
        SlashIsAbsolute(d, 0);
      }
      assert IsAbsoluteAt(s, 0) && IsAbsoluteAt(d, 0) ==> 0 <= 0 <= m;
    }
  }
}
