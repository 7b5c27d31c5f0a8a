// What the insertion of lines keeps, adds and reaches.
module InsertionLaws {
  import opened Chunks
  import opened FiniteSets
  import opened LineInsertion
  import opened Options

  // ---------------------------------------------------------------- what one line adds

  /** s is t with some elements left out. */
  predicate Within<T(==)>(s: seq<T>, t: seq<T>)
    decreases |t|
  {
    s == [] || (t != [] && if s[0] == t[0] then Within(s[1..], t[1..]) else Within(s, t[1..]))
  }

  lemma {:induction false} WithinBetween<T>(front: seq<T>, x: T, back: seq<T>)
    ensures Within(front + back, front + ([x] + back))
  {
    if front == [] {
      WithinGrows(back, x);
      assert front + back == back && front + ([x] + back) == [x] + back;
    } else {
      WithinBetween(front[1..], x, back);
      assert (front + back)[1..] == front[1..] + back;
      assert (front + ([x] + back))[1..] == front[1..] + ([x] + back);
    }
  }

  lemma WithIsBetween<T>(s: seq<T>, p: nat, x: T)
    requires p <= |s|
    ensures s[..p] + s[p..] == s && s[..p] + ([x] + s[p..]) == With(s, p, x)
  {
  }

  lemma WithinOneMore<T>(s: seq<T>, p: nat, x: T)
    requires p <= |s|
    ensures Within(s, With(s, p, x))
  {
    WithIsBetween(s, p, x);
    WithinBetween(s[..p], x, s[p..]);
  }

  lemma {:induction false} WithinGrows<T>(s: seq<T>, x: T)
    ensures Within(s, [x] + s)
  {
    assert ([x] + s)[1..] == s;
    if s != [] {
      if s[0] == x {
        WithinGrows(s[1..], s[0]);
        assert [s[0]] + s[1..] == s;
      } else {
        WithinItself(s);
      }
    }
  }

  lemma {:induction false} WithinItself<T>(s: seq<T>)
    ensures Within(s, s)
  {
    if s != [] {
      WithinItself(s[1..]);
    }
  }

  lemma {:induction false} WithinIsTransitive<T>(s: seq<T>, t: seq<T>, u: seq<T>)
    requires Within(s, t) && Within(t, u)
    ensures Within(s, u)
    decreases |u|
  {
    if s != [] {
      if t[0] == u[0] {
        if s[0] == t[0] {
          WithinIsTransitive(s[1..], t[1..], u[1..]);
        } else {
          WithinIsTransitive(s, t[1..], u[1..]);
        }
      } else {
        WithinIsTransitive(s, t, u[1..]);
        if s[0] == u[0] {
          WithinLessTheFirst(s, u[1..]);
        }
      }
    }
  }

  lemma {:induction false} WithinLessTheFirst<T>(s: seq<T>, t: seq<T>)
    requires s != [] && Within(s, t)
    ensures Within(s[1..], t)
    decreases |t|
  {
    if |s| > 1 {
      if s[0] == t[0] {
        if s[1] == t[0] {
          WithinLessTheFirst(s[1..], t[1..]);
        }
      } else {
        WithinLessTheFirst(s, t[1..]);
        if s[1] == t[0] {
          WithinLessTheFirst(s[1..], t[1..]);
        }
      }
    }
  }

  lemma WithOneMore<T>(s: seq<T>, p: nat, x: T)
    requires p <= |s|
    ensures forall y :: y in With(s, p, x) <==> y in s || y == x
  {
    forall y | y in s ensures y in With(s, p, x) {
      var k :| 0 <= k < |s| && s[k] == y;
      assert With(s, p, x)[if k < p then k else k + 1] == y;
    }
    assert With(s, p, x)[p] == x;
  }

  /** Putting a line keeps what stands before the location; the line is there then, if it is selected. */
  lemma PuttingOne(s: Spot, d: Insertion, b: Option<nat>, line: string)
    requires Apt(s, b)
    ensures var r := Put(s, d, b, line);
            && s.pos <= r.pos && s.end <= r.end && r.lines[..s.pos] == s.lines[..s.pos]
            && Within(s.lines, r.lines)
            && forall x :: x in r.lines <==> x in s.lines || (x == line && d.selects(line))
  {
    if Skipped(s, d, b, line) || Follows(s, d, line) {
      WithinItself(s.lines);
    } else {
      WithinOneMore(s.lines, s.pos, line);
      WithOneMore(s.lines, s.pos, line);
    }
  }

  /** All lines of the file stay, in their order; the rest are selected lines of the chunk, none left out. */
  lemma {:induction false} PuttingAll(s: Spot, d: Insertion, b: Option<nat>, pieces: seq<string>)
    requires Apt(s, b)
    ensures var r := PutAll(s, d, b, pieces);
            && s.pos <= r.pos && s.end <= r.end && r.lines[..s.pos] == s.lines[..s.pos]
            && Within(s.lines, r.lines)
            && forall x :: x in r.lines <==> x in s.lines || (x in pieces && d.selects(x))
    decreases |pieces|
  {
    if pieces == [] {
      WithinItself(s.lines);
    } else {
      var next := Put(s, d, b, pieces[0]);
      var r := PutAll(next, d, b, pieces[1..]);
      PuttingOne(s, d, b, pieces[0]);
      PuttingAll(next, d, b, pieces[1..]);
      WithinIsTransitive(s.lines, next.lines, r.lines);
      assert r.lines[..next.pos][..s.pos] == r.lines[..s.pos] && next.lines[..next.pos][..s.pos] == next.lines[..s.pos];
      assert pieces == [pieces[0]] + pieces[1..];
    }
  }

  // ---------------------------------------------------------------- what an insertion adds

  /** Every selected line of the chunk is there. */
  ghost predicate AllPresent(d: Insertion, lines: seq<string>) {
    forall line | line in Pieces(d.chunk) && d.selects(line) :: line in lines
  }

  /** Lines are only added, selected lines of the chunk, behind the region; all of them unless it stood in place. */
  lemma InsertionAdds(lines: seq<string>, d: Insertion, begin: Option<nat>, end: nat)
    requires Apt(Spot(lines, end, end), begin)
    ensures var r := After(lines, d, begin, end);
            && end <= r.end && r.lines[..end] == lines[..end] && Within(lines, r.lines)
            && (forall x | x in r.lines :: x in lines || (x in Pieces(d.chunk) && d.selects(x)))
            && (r.lines == lines || AllPresent(d, r.lines))
            && (d.source == PreserveAllLines || !InPlace(lines, end, Compared(d.chunk)) ==> AllPresent(d, r.lines))
  {
    WithinItself(lines);
    PuttingAll(Spot(lines, end, end), d, begin, Pieces(d.chunk));
  }

  lemma WhatStandsIsThere(lines: seq<string>, end: nat, compared: seq<string>, k: nat)
    requires end <= |lines| && InPlace(lines, end, compared) && k < |compared|
    ensures compared[k] in lines
  {
    if i: nat :| StandsAt(lines[..end], compared, i) {
      assert lines[i + k] == compared[k];
    } else {
      assert lines[end - 1 + k] == compared[k];
    }
  }

  ghost predicate AlwaysPresent(d: Insertion) {
    forall lines, begin, end | Apt(Spot(lines, end, end), begin) :: AllPresent(d, After(lines, d, begin, end).lines)
  }

  /**
   * An insertion brings every selected line into every file exactly if these lines are among those
   * the chunk is compared as; chunks whose lines are preserved in any case always do.
   */
  lemma SelectedLinesArePresentExactly(d: Insertion)
    ensures AlwaysPresent(d) <==> d.source == PreserveAllLines || AllPresent(d, Compared(d.chunk))
    ensures Plain(Lines(d.chunk)) ==> AlwaysPresent(d)
  {
    ComparedAsInsertedExactly(d.chunk);
    if d.source == PreserveAllLines || AllPresent(d, Compared(d.chunk)) {
      forall lines, begin, end | Apt(Spot(lines, end, end), begin)
        ensures AllPresent(d, After(lines, d, begin, end).lines)
      {
        PresentInEveryFile(lines, d, begin, end);
      }
    } else {
      var compared := Compared(d.chunk);
      var n := |compared|;
      NothingIntoWhatIsCompared(d);
      assert Apt(Spot(compared, n, n), Some(0));
      assert !AlwaysPresent(d);
    }
  }

  lemma PresentInEveryFile(lines: seq<string>, d: Insertion, begin: Option<nat>, end: nat)
    requires d.source == PreserveAllLines || AllPresent(d, Compared(d.chunk))
    requires Apt(Spot(lines, end, end), begin)
    ensures AllPresent(d, After(lines, d, begin, end).lines)
  {
    InsertionAdds(lines, d, begin, end);
    var compared := Compared(d.chunk);
    if d.source != PreserveAllLines && InPlace(lines, end, compared) {
      forall line | line in Pieces(d.chunk) && d.selects(line) ensures line in lines {
        var k :| 0 <= k < |compared| && compared[k] == line;
        WhatStandsIsThere(lines, end, compared, k);
      }
    }
  }

  lemma NothingIntoWhatIsCompared(d: Insertion)
    requires d.source != PreserveAllLines
    ensures var n := |Compared(d.chunk)|;
            n > 0 && After(Compared(d.chunk), d, Some(0), n).lines == Compared(d.chunk)
  {
    var compared := Compared(d.chunk);
    assert compared[..|compared|] == compared && StandsAt(compared, compared, 0);
  }

  lemma WhatIsComparedHidesOthers(d: Insertion, file: seq<string>, line: string)
    requires d.source != PreserveAllLines && file == Compared(d.chunk)
    requires line in Pieces(d.chunk) && d.selects(line) && line !in file
    ensures |file| > 0 && After(file, d, Some(0), |file|).lines == file && !AllPresent(d, file)
    ensures !Plain(Lines(d.chunk))
  {
    NothingIntoWhatIsCompared(d);
    ComparedAsInsertedExactly(d.chunk);
  }

  /** For an empty line the line before it is compared: three equal lines pass for a chunk of other lines. */
  lemma AnEmptyLineHidesOthers(d: Insertion)
    requires d.chunk == "a\n\nb" && d.source == Literal && forall line :: d.selects(line)
    ensures After(["a", "a", "a"], d, Some(0), 3).lines == ["a", "a", "a"]
    ensures !AllPresent(d, ["a", "a", "a"]) && !Plain(Lines(d.chunk))
  {
    AnEmptyLineIsComparedAsTheLineBefore();
    var pieces := ["a", "", "b"];
    assert pieces[2] == "b" && pieces == Pieces(d.chunk);
    WhatIsComparedHidesOthers(d, ["a", "a", "a"], "b");
  }

  // ---------------------------------------------------------------- the second run

  /** Behind the end of the region the region does not change. */
  lemma {:induction false} BehindTheRegion(s: Spot, d: Insertion, b: Option<nat>, pieces: seq<string>)
    requires Apt(s, b) && s.pos > s.end
    ensures PutAll(s, d, b, pieces).end == s.end
    decreases |pieces|
  {
    if pieces != [] {
      BehindTheRegion(Put(s, d, b, pieces[0]), d, b, pieces[1..]);
    }
  }

  // What the first run has left, and where the second one stands when the first stands at s.
  ghost function Again(s: Spot, done: Spot): Spot {
    Spot(done.lines, done.end, if s.pos <= s.end then done.end else s.pos)
  }

  lemma SecondTurn(s: Spot, d: Insertion, b: Option<nat>, line: string, rest: seq<string>)
    requires Apt(s, b) && s.end <= s.pos && b.Some? && d.source == Literal
    ensures var next := Put(s, d, b, line); var done := PutAll(next, d, b, rest);
            Apt(Again(s, done), b) && Put(Again(s, done), d, b, line) == Again(next, done)
  {
    var next := Put(s, d, b, line);
    var done := PutAll(next, d, b, rest);
    PuttingOne(s, d, b, line);
    PuttingAll(next, d, b, rest);
    assert done.lines[..next.pos][..s.pos] == done.lines[..s.pos];
    assert next.lines[..next.pos][..s.pos] == next.lines[..s.pos];
    if d.selects(line) {
      if InRegion(s, b, line) {
        RegionsGrow(s, done, b, line);
      } else {
        assert done.lines[..next.pos][s.pos] == next.lines[..next.pos][s.pos] == line;
        if s.pos == s.end && !Follows(s, d, line) {
          assert done.lines[b.value..done.end][s.pos - b.value] == line;
        } else {
          BehindTheRegion(next, d, b, rest);
          SameRegion(s, done, b, line);
        }
      }
    }
  }

  lemma RegionsGrow(s: Spot, done: Spot, b: Option<nat>, line: string)
    requires Apt(s, b) && Apt(done, b) && s.end <= s.pos <= |done.lines| && s.end <= done.end
    requires done.lines[..s.pos] == s.lines[..s.pos] && InRegion(s, b, line)
    ensures InRegion(done, b, line)
  {
    var k :| 0 <= k < s.end - b.value && s.lines[b.value..s.end][k] == line;
    assert done.lines[..s.pos][b.value + k] == s.lines[..s.pos][b.value + k];
    assert done.lines[b.value..done.end][k] == line;
  }

  lemma SameRegion(s: Spot, done: Spot, b: Option<nat>, line: string)
    requires Apt(s, b) && Apt(done, b) && s.end <= s.pos <= |done.lines| && s.end == done.end
    requires done.lines[..s.pos] == s.lines[..s.pos]
    ensures InRegion(done, b, line) <==> InRegion(s, b, line)
  {
    if b.Some? {
      assert done.lines[b.value..s.end] == done.lines[..s.pos][b.value..s.end];
      assert s.lines[b.value..s.end] == s.lines[..s.pos][b.value..s.end];
    }
  }

  lemma {:induction false} PuttingAgain(s: Spot, d: Insertion, b: Option<nat>, pieces: seq<string>)
    requires Apt(s, b) && s.end <= s.pos && b.Some? && d.source == Literal
    ensures var done := PutAll(s, d, b, pieces);
            Apt(Again(s, done), b) && PutAll(Again(s, done), d, b, pieces).lines == done.lines
    decreases |pieces|
  {
    PuttingAll(s, d, b, pieces);
    if pieces != [] {
      var next := Put(s, d, b, pieces[0]);
      SecondTurn(s, d, b, pieces[0], pieces[1..]);
      PuttingAgain(next, d, b, pieces[1..]);
    }
  }

  /** In any region with a start a second run inserts nothing. */
  lemma InsertionConvergesInRegions(lines: seq<string>, d: Insertion, begin: nat, end: nat)
    requires Apt(Spot(lines, end, end), Some(begin)) && d.source == Literal
    ensures var r := After(lines, d, Some(begin), end);
            After(r.lines, d, Some(begin), r.end).lines == r.lines
  {
    PuttingAgain(Spot(lines, end, end), d, Some(begin), Pieces(d.chunk));
  }

  // ---------------------------------------------------------------- one line into a region

  lemma OneLineStands(file: seq<string>, line: string)
    ensures Holds(file, [line]) <==> line in file
  {
    if i :| 0 <= i < |file| && file[i] == line {
      assert StandsAt(file, [line], i);
    }
    if i :| StandsAt(file, [line], i) {
      assert file[i + 0] == [line][0];
    }
  }

  /**
   * One line that is selected goes to the end of the region, unless it stands somewhere before that
   * end, be it in front of the region, or is the line behind it.
   */
  lemma OneLineGoesToTheEnd(lines: seq<string>, d: Insertion, begin: nat, end: nat)
    requires Apt(Spot(lines, end, end), Some(begin)) && d.source == Literal
    requires '\n' !in d.chunk && |d.chunk| < CF_BUFSIZE
    ensures After(lines, d, Some(begin), end) ==
            if d.selects(d.chunk) && d.chunk !in lines[..end] && !(end < |lines| && lines[end] == d.chunk)
            then Spot(lines[..end] + [d.chunk] + lines[end..], end + 1, end + 1)
            else Spot(lines, end, if d.selects(d.chunk) && d.chunk !in lines[..end] then end + 1 else end)
  {
    var s, line := Spot(lines, end, end), d.chunk;
    OneLineChunks(line);
    OneLineStands(lines[..end], line);
    assert StandsAt(lines, [line], end - 1) ==> lines[..end][end - 1] == lines[end - 1 + 0] == [line][0];
    assert PutAll(s, d, Some(begin), [line]) == Put(s, d, Some(begin), line);
    assert forall k | begin <= k < end :: lines[begin..end][k - begin] == lines[..end][k];
  }

  /** So after a run it is in the region exactly if it was, or is selected and stands in neither place. */
  lemma OneLineIsInTheRegionExactly(lines: seq<string>, d: Insertion, begin: nat, end: nat)
    requires Apt(Spot(lines, end, end), Some(begin)) && d.source == Literal
    requires '\n' !in d.chunk && |d.chunk| < CF_BUFSIZE
    ensures var r := After(lines, d, Some(begin), end);
            d.chunk in r.lines[begin..r.end] <==>
            || d.chunk in lines[begin..end]
            || (d.selects(d.chunk) && d.chunk !in lines[..begin] && !(end < |lines| && lines[end] == d.chunk))
  {
    OneLineGoesToTheEnd(lines, d, begin, end);
    var r := After(lines, d, Some(begin), end);
    assert lines[..end] == lines[..begin] + lines[begin..end];
    if r.end == end + 1 {
      assert r.lines[begin..r.end][end - begin] == d.chunk;
    }
  }

  /** In the lines a, s the line a is not put into the region that s begins. */
  lemma ALineInFrontKeepsItOut(d: Insertion)
    requires d.chunk == "a" && d.source == Literal && d.selects("a")
    ensures var r := After(["a", "s"], d, Some(1), 2); r.lines == ["a", "s"] && "a" !in r.lines[1..r.end]
  {
    var lines := ["a", "s"];
    OneLineGoesToTheEnd(lines, d, 1, 2);
    assert lines[..2][0] == "a" && lines[1..2] == ["s"];
    assert "a"[0] == 'a' && "s"[0] == 's';
  }

  // ---------------------------------------------------------------- the whole file

  /** One line after the other goes to the end, if it is selected and (unless always) not yet there. */
  function Appended(file: seq<string>, chunk: seq<string>, selects: string -> bool, always: bool): seq<string>
    decreases |chunk|
  {
    if chunk == [] then file
    else
      var line := chunk[0];
      Appended(if selects(line) && (always || line !in file) then file + [line] else file, chunk[1..], selects, always)
  }

  /** An insertion without a region; a file without lines has no start. */
  ghost function Inserted(file: seq<string>, chunk: string, selects: string -> bool): seq<string> {
    After(file, Insertion(chunk, Literal, selects), if file == [] then None else Some(0), |file|).lines
  }

  lemma {:induction false} PuttingAtTheEnd(s: Spot, d: Insertion, b: Option<nat>, pieces: seq<string>)
    requires Apt(s, b) && s.end == s.pos == |s.lines| && d.source == Literal && (b.None? || b == Some(0))
    ensures PutAll(s, d, b, pieces).lines == Appended(s.lines, pieces, d.selects, b.None?)
    decreases |pieces|
  {
    if pieces != [] {
      assert s.lines[0..|s.lines|] == s.lines;
      assert With(s.lines, |s.lines|, pieces[0]) == s.lines + [pieces[0]];
      PuttingAtTheEnd(Put(s, d, b, pieces[0]), d, b, pieces[1..]);
    }
  }

  /** Without a region the lines are appended, unless the chunk stands somewhere in the file. */
  lemma InsertionIsAppending(file: seq<string>, chunk: string, selects: string -> bool)
    ensures Inserted(file, chunk, selects)
         == if Holds(file, Compared(chunk)) then file else Appended(file, Pieces(chunk), selects, file == [])
  {
    var d, n := Insertion(chunk, Literal, selects), |file|;
    assert file[..n] == file;
    PuttingAtTheEnd(Spot(file, n, n), d, if file == [] then None else Some(0), Pieces(chunk));
    assert n > 0 && StandsAt(file, Compared(chunk), n - 1) ==> Holds(file, Compared(chunk));
  }

  /** Appending keeps the file in front; the rest are selected lines of the chunk, none left out. */
  lemma {:induction false} AppendingAppends(file: seq<string>, chunk: seq<string>, selects: string -> bool,
                                           always: bool)
    ensures file <= Appended(file, chunk, selects, always)
    ensures forall line :: line in Appended(file, chunk, selects, always)
                      <==> line in file || (line in chunk && selects(line))
    decreases |chunk|
  {
    if chunk != [] {
      var line := chunk[0];
      assert chunk == [line] + chunk[1..];
      AppendingAppends(if selects(line) && (always || line !in file) then file + [line] else file, chunk[1..],
                       selects, always);
    }
  }

  lemma {:induction false} AppendingInTurn(file: seq<string>, a: seq<string>, b: seq<string>, selects: string -> bool)
    ensures Appended(file, a + b, selects, false) == Appended(Appended(file, a, selects, false), b, selects, false)
    decreases |a|
  {
    if a == [] {
      assert a + b == b;
    } else {
      assert (a + b)[1..] == a[1..] + b;
      AppendingInTurn(if selects(a[0]) && a[0] !in file then file + [a[0]] else file, a[1..], b, selects);
    }
  }

  /** A new line comes behind every selected line of the chunk that precedes it there. */
  lemma NewLinesKeepTheirOrder(file: seq<string>, chunk: seq<string>, selects: string -> bool, p: nat, q: nat)
    requires p < q < |chunk| && selects(chunk[p]) && selects(chunk[q])
    requires chunk[q] !in file && chunk[q] !in chunk[..q]
    ensures exists i, j ::
              && 0 <= i < j < |Appended(file, chunk, selects, false)|
              && Appended(file, chunk, selects, false)[i] == chunk[p]
              && Appended(file, chunk, selects, false)[j] == chunk[q]
  {
    var before := Appended(file, chunk[..q], selects, false);
    AppendingAppends(file, chunk[..q], selects, false);
    assert chunk[p] == chunk[..q][p];
    assert chunk[p] in before && chunk[q] !in before;
    var i :| 0 <= i < |before| && before[i] == chunk[p];
    assert chunk == chunk[..q] + chunk[q..];
    AppendingInTurn(file, chunk[..q], chunk[q..], selects);
    var grown := before + [chunk[q]];
    AppendingAppends(grown, chunk[q..][1..], selects, false);
    assert grown <= Appended(file, chunk, selects, false);
    assert grown[i] == chunk[p] && grown[|before|] == chunk[q];
  }

  /** Nothing is appended twice. */
  lemma {:induction false} AppendingKeepsLinesDistinct(file: seq<string>, chunk: seq<string>, selects: string -> bool)
    requires Distinct(file)
    ensures Distinct(Appended(file, chunk, selects, false))
    decreases |chunk|
  {
    if chunk != [] {
      var line := chunk[0];
      AppendingKeepsLinesDistinct(if selects(line) && line !in file then file + [line] else file, chunk[1..], selects);
    }
  }

  lemma {:induction false} NothingToAppend(file: seq<string>, chunk: seq<string>, selects: string -> bool)
    requires forall k | 0 <= k < |chunk| :: selects(chunk[k]) ==> chunk[k] in file
    ensures Appended(file, chunk, selects, false) == file
    decreases |chunk|
  {
    if chunk != [] {
      forall k | 0 <= k < |chunk[1..]| ensures selects(chunk[1..][k]) ==> chunk[1..][k] in file {
        assert chunk[1..][k] == chunk[k + 1];
      }
      assert selects(chunk[0]) ==> chunk[0] in file;
      NothingToAppend(file, chunk[1..], selects);
    }
  }

  /**
   * Insertion only appends, and unless what the chunk is compared as stands in the file, every
   * selected line is in the file afterwards; for a plain chunk always.
   */
  lemma InsertionAppends(file: seq<string>, chunk: string, selects: string -> bool)
    ensures file <= Inserted(file, chunk, selects)
    ensures forall line | line in Inserted(file, chunk, selects) ::
              line in file || (line in Pieces(chunk) && selects(line))
    ensures !Holds(file, Compared(chunk)) ==> forall line | line in Pieces(chunk) && selects(line) ::
              line in Inserted(file, chunk, selects)
    ensures Plain(Lines(chunk)) ==> forall line | line in Lines(chunk) && selects(line) ::
              line in Inserted(file, chunk, selects)
  {
    InsertionIsAppending(file, chunk, selects);
    AppendingAppends(file, Pieces(chunk), selects, file == []);
    ComparedAsInsertedExactly(chunk);
    var d := Insertion(chunk, Literal, selects);
    SelectedLinesArePresentExactly(d);
    assert Plain(Lines(chunk)) ==> AllPresent(d, Inserted(file, chunk, selects));
  }

  /** A second run inserts nothing. */
  lemma InsertionConverges(file: seq<string>, chunk: string, selects: string -> bool)
    ensures Inserted(Inserted(file, chunk, selects), chunk, selects) == Inserted(file, chunk, selects)
  {
    var once := Inserted(file, chunk, selects);
    InsertionIsAppending(file, chunk, selects);
    InsertionIsAppending(once, chunk, selects);
    AppendingAppends(file, Pieces(chunk), selects, file == []);
    if !Holds(once, Compared(chunk)) {
      if once == [] {
        assert file == [];
      } else {
        NothingToAppend(once, Pieces(chunk), selects);
      }
    }
  }

  function Selected(chunk: seq<string>, selects: string -> bool): seq<string> {
    if chunk == [] then [] else (if selects(chunk[0]) then [chunk[0]] else []) + Selected(chunk[1..], selects)
  }

  lemma {:induction false} AppendingAlways(file: seq<string>, chunk: seq<string>, selects: string -> bool)
    ensures Appended(file, chunk, selects, true) == file + Selected(chunk, selects)
    decreases |chunk|
  {
    if chunk != [] {
      AppendingAlways(if selects(chunk[0]) then file + [chunk[0]] else file, chunk[1..], selects);
    }
  }

  /** An empty file takes every selected line, repeated ones too; a file with a line takes each once. */
  lemma RepeatedLinesEnterAnEmptyFile(line: string, chunk: string, selects: string -> bool)
    requires !StandsAt([line], Compared(chunk), 0)
    ensures Inserted([], chunk, selects) == Selected(Pieces(chunk), selects)
    ensures Distinct(Inserted([line], chunk, selects))
  {
    InsertionIsAppending([], chunk, selects);
    assert !Holds([], Compared(chunk));
    AppendingAlways([], Pieces(chunk), selects);
    InsertionIsAppending([line], chunk, selects);
    AppendingKeepsLinesDistinct([line], Pieces(chunk), selects);
    assert !Holds([line], Compared(chunk));
  }

  /** The lines a, a: twice into the empty file, once into another. */
  lemma TwiceIntoTheEmptyFile(selects: string -> bool)
    requires forall line :: selects(line)
    ensures Inserted([], "a\na", selects) == ["a", "a"]
    ensures Inserted(["x"], "a\na", selects) == ["x", "a"]
  {
    TwoLineChunks("a", "a");
    assert "a" + "\n" + "a" == "a\na";
    OnceOrTwice("a\na", "a", selects);
  }

  lemma OnceOrTwice(chunk: string, a: string, selects: string -> bool)
    requires selects(a) && a != "x" && Pieces(chunk) == Compared(chunk) == [a, a]
    ensures Inserted([], chunk, selects) == [a, a] && Inserted(["x"], chunk, selects) == ["x", a]
  {
    InsertionIsAppending([], chunk, selects);
    InsertionIsAppending(["x"], chunk, selects);
    assert [a, a][1..] == [a] && [a][1..] == [];
    assert [] + [a] == [a] && [a] + [a] == [a, a] && ["x"] + [a] == ["x", a];
    assert Appended([a], [a], selects, true) == [a, a];
    assert Appended(["x", a], [a], selects, false) == ["x", a];
  }

  // ---------------------------------------------------------------- blocks, and regions without a start

  /** All selected lines are put, whatever is there: as a block, or at the end without a start or as all lines. */
  ghost predicate PutsAll(d: Insertion, begin: Option<nat>, pos: nat, n: nat) {
    d.source == PreserveBlock || (pos == n && (begin.None? || d.source == PreserveAllLines))
  }

  lemma PuttingIntoABlock(s: Spot, d: Insertion, b: Option<nat>, line: string)
    requires Apt(s, b) && s.pos == s.end && PutsAll(d, b, s.pos, |s.lines|)
    ensures var next := Put(s, d, b, line);
            && next == (if d.selects(line) then Spot(With(s.lines, s.pos, line), s.pos + 1, s.pos + 1) else s)
            && PutsAll(d, b, next.pos, |next.lines|)
  {
  }

  lemma BlocksGrow(lines: seq<string>, pos: nat, line: string, block: seq<string>)
    requires pos <= |lines|
    ensures With(lines, pos, line)[..pos + 1] + block + With(lines, pos, line)[pos + 1..]
         == lines[..pos] + ([line] + block) + lines[pos..]
  {
    assert With(lines, pos, line)[..pos + 1] == lines[..pos] + [line];
    assert With(lines, pos, line)[pos + 1..] == lines[pos..];
  }

  lemma {:induction false} PuttingBlocks(s: Spot, d: Insertion, b: Option<nat>, pieces: seq<string>)
    requires Apt(s, b) && s.pos == s.end && PutsAll(d, b, s.pos, |s.lines|)
    ensures var block := Selected(pieces, d.selects); var n := s.pos + |block|;
            PutAll(s, d, b, pieces) == Spot(s.lines[..s.pos] + block + s.lines[s.pos..], n, n)
    decreases |pieces|
  {
    if pieces == [] {
      assert s.lines[..s.pos] + [] + s.lines[s.pos..] == s.lines;
    } else {
      var line := pieces[0];
      PuttingIntoABlock(s, d, b, line);
      PuttingBlocks(Put(s, d, b, line), d, b, pieces[1..]);
      if d.selects(line) {
        BlocksGrow(s.lines, s.pos, line, Selected(pieces[1..], d.selects));
      }
    }
  }

  /**
   * Here a second run inserts nothing exactly if nothing is selected or the chunk stands in place by
   * then, and is looked for.
   */
  lemma BlocksConvergeExactly(lines: seq<string>, d: Insertion, begin: Option<nat>, end: nat)
    requires Apt(Spot(lines, end, end), begin) && PutsAll(d, begin, end, |lines|)
    ensures var r := After(lines, d, begin, end);
            && Apt(Spot(r.lines, r.end, r.end), begin)
            && (After(r.lines, d, begin, r.end).lines == r.lines
                <==> || Selected(Pieces(d.chunk), d.selects) == []
                     || (d.source != PreserveAllLines && InPlace(r.lines, r.end, Compared(d.chunk))))
  {
    var block := Selected(Pieces(d.chunk), d.selects);
    PuttingBlocks(Spot(lines, end, end), d, begin, Pieces(d.chunk));
    var r := After(lines, d, begin, end);
    PuttingBlocks(Spot(r.lines, r.end, r.end), d, begin, Pieces(d.chunk));
    assert r.lines[..r.end] + [] + r.lines[r.end..] == r.lines;
    assert |r.lines[..r.end] + block + r.lines[r.end..]| == |r.lines| + |block|;
  }

  ghost predicate SettlesInBlocks(lines: seq<string>, d: Insertion, begin: Option<nat>, end: nat)
    requires Apt(Spot(lines, end, end), begin) && PutsAll(d, begin, end, |lines|)
  {
    var r := After(lines, d, begin, end);
    Apt(Spot(r.lines, r.end, r.end), begin) && After(r.lines, d, begin, r.end).lines == r.lines
  }

  /** Whatever the file and its region are, a second run inserts nothing. */
  ghost predicate BlocksAlwaysConverge(d: Insertion, begin: Option<nat>) {
    forall lines, end | Apt(Spot(lines, end, end), begin) && PutsAll(d, begin, end, |lines|) ::
      SettlesInBlocks(lines, d, begin, end)
  }

  /** So a promise converges exactly if it selects nothing, or what it is looked for as stands in what it selects. */
  lemma BlockPromisesConvergeExactly(d: Insertion, begin: Option<nat>)
    requires begin.None? || d.source != Literal
    ensures var block := Selected(Pieces(d.chunk), d.selects);
            BlocksAlwaysConverge(d, begin) <==>
            block == [] || (d.source != PreserveAllLines && Holds(block, Compared(d.chunk)))
  {
    var block := Selected(Pieces(d.chunk), d.selects);
    if block == [] || (d.source != PreserveAllLines && Holds(block, Compared(d.chunk))) {
      forall lines, end | Apt(Spot(lines, end, end), begin) && PutsAll(d, begin, end, |lines|)
        ensures SettlesInBlocks(lines, d, begin, end)
      {
        StandingBlocksSettle(lines, d, begin, end);
      }
    } else {
      var n := if begin.None? then 1 else begin.value + 1;
      OtherBlocksDoNot(seq(n, _ => Longer(Compared(d.chunk))), d, begin);
    }
  }

  /** Of the lines a, b only a is selected, and there is no start: every run inserts another a. */
  lemma OneSelectedLineKeepsGrowing(d: Insertion)
    requires d.chunk == "a\nb" && d.source == Literal && forall line :: d.selects(line) <==> line == "a"
    ensures After(["x"], d, None, 1) == Spot(["x", "a"], 2, 2)
    ensures After(["x", "a"], d, None, 2) == Spot(["x", "a", "a"], 3, 3)
  {
    TwoLineChunks("a", "b");
    assert "a" + "\n" + "b" == d.chunk;
    AppendsTheFirst(["x"], d, "a", "b");
    AppendsTheFirst(["x", "a"], d, "a", "b");
  }

  lemma TheFirstIsSelected(a: string, b: string, selects: string -> bool)
    requires selects(a) && !selects(b)
    ensures Selected([a, b], selects) == [a]
  {
    assert [a, b][1..] == [b] && [b][1..] == [];
    assert Selected([], selects) == [];
    assert Selected([b], selects) == [] + [];
    assert Selected([a, b], selects) == [a] + [];
  }

  lemma AppendsTheFirst(lines: seq<string>, d: Insertion, a: string, b: string)
    requires lines != [] && b !in lines && d.source == Literal && d.selects(a) && !d.selects(b)
    requires Pieces(d.chunk) == Compared(d.chunk) == [a, b]
    ensures var n := |lines|; After(lines, d, None, n) == Spot(lines + [a], n + 1, n + 1)
  {
    var n := |lines|;
    forall i: nat | i + 2 <= n ensures !StandsAt(lines, [a, b], i) {
      assert lines[i + 1] in lines && lines[i + 1] != [a, b][1];
    }
    assert lines[..n] == lines && lines[n..] == [];
    TheFirstIsSelected(a, b, d.selects);
    PuttingBlocks(Spot(lines, n, n), d, None, [a, b]);
  }

  lemma StandingBlocksSettle(lines: seq<string>, d: Insertion, begin: Option<nat>, end: nat)
    requires Apt(Spot(lines, end, end), begin) && PutsAll(d, begin, end, |lines|)
    requires var block := Selected(Pieces(d.chunk), d.selects);
             block == [] || (d.source != PreserveAllLines && Holds(block, Compared(d.chunk)))
    ensures SettlesInBlocks(lines, d, begin, end)
  {
    var block, compared := Selected(Pieces(d.chunk), d.selects), Compared(d.chunk);
    BlocksConvergeExactly(lines, d, begin, end);
    PuttingBlocks(Spot(lines, end, end), d, begin, Pieces(d.chunk));
    if block != [] && !InPlace(lines, end, compared) {
      var r := After(lines, d, begin, end);
      var i: nat :| StandsAt(block, compared, i);
      assert r.lines[..r.end] == lines[..end] + block;
      assert StandsAt(r.lines[..r.end], compared, end + i);
    }
  }

  /** A file of lines the chunk is not looked for as. */
  lemma OtherBlocksDoNot(lines: seq<string>, d: Insertion, begin: Option<nat>)
    requires Apt(Spot(lines, |lines|, |lines|), begin) && PutsAll(d, begin, |lines|, |lines|)
    requires forall line | line in lines :: line == Longer(Compared(d.chunk))
    requires var block := Selected(Pieces(d.chunk), d.selects);
             block != [] && (d.source == PreserveAllLines || !Holds(block, Compared(d.chunk)))
    ensures !SettlesInBlocks(lines, d, begin, |lines|)
  {
    var n, block, compared := |lines|, Selected(Pieces(d.chunk), d.selects), Compared(d.chunk);
    LongerThanAll(compared);
    NotInFront(lines, [], compared);
    NotInFront(lines, block, compared);
    assert lines + [] == lines == lines[..n] && lines[n..] == [];
    assert !InPlace(lines, n, compared) by {
      assert n > 0 && StandsAt(lines, compared, n - 1) ==> Holds(lines, compared);
    }
    BlocksConvergeExactly(lines, d, begin, n);
    PuttingBlocks(Spot(lines, n, n), d, begin, Pieces(d.chunk));
    var r := After(lines, d, begin, n);
    assert r.lines == lines + block && r.end == |r.lines| && r.lines[..r.end] == r.lines;
    assert StandsAt(r.lines, compared, r.end - 1) ==> Holds(r.lines, compared);
  }

  lemma NotInFront(lines: seq<string>, block: seq<string>, compared: seq<string>)
    requires compared != [] && compared[0] !in lines
    ensures Holds(lines + block, compared) ==> Holds(block, compared)
  {
    if i: nat :| StandsAt(lines + block, compared, i) {
      assert (lines + block)[i] == compared[0];
      assert i >= |lines|;
      forall k | 0 <= k < |compared| ensures block[i - |lines| + k] == compared[k] {
        assert (lines + block)[i + k] == compared[k];
      }
      assert StandsAt(block, compared, i - |lines|);
    }
  }

  function Longer(lines: seq<string>): string {
    if lines == [] then "x" else Longer(lines[1..]) + lines[0]
  }

  lemma {:induction false} LongerThanAll(lines: seq<string>)
    ensures Longer(lines) != "" && forall line | line in lines :: |line| < |Longer(lines)|
  {
    if lines != [] {
      LongerThanAll(lines[1..]);
      assert lines == [lines[0]] + lines[1..];
    }
  }

  lemma {:induction false} AllSelected(pieces: seq<string>, selects: string -> bool)
    requires forall line | line in pieces :: selects(line)
    ensures Selected(pieces, selects) == pieces
  {
    if pieces != [] {
      AllSelected(pieces[1..], selects);
    }
  }

  /** A plain chunk whose lines are all selected stands in place after the first run. */
  lemma PlainBlocksConverge(lines: seq<string>, d: Insertion, begin: Option<nat>, end: nat)
    requires Apt(Spot(lines, end, end), begin) && d.source != PreserveAllLines && PutsAll(d, begin, end, |lines|)
    requires Plain(Lines(d.chunk)) && forall line | line in Lines(d.chunk) :: d.selects(line)
    ensures var r := After(lines, d, begin, end);
            Apt(Spot(r.lines, r.end, r.end), begin) && After(r.lines, d, begin, r.end).lines == r.lines
  {
    var pieces := Pieces(d.chunk);
    ComparedAsInsertedExactly(d.chunk);
    AllSelected(pieces, d.selects);
    PuttingBlocks(Spot(lines, end, end), d, begin, pieces);
    BlocksConvergeExactly(lines, d, begin, end);
    var r := After(lines, d, begin, end);
    if !InPlace(lines, end, Compared(d.chunk)) {
      assert r.lines[..r.end] == lines[..end] + pieces;
      assert StandsAt(r.lines[..r.end], pieces, end);
    }
  }
}
