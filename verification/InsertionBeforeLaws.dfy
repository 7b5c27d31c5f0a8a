// What the insertion of lines before a region keeps, adds and reaches.
module InsertionBeforeLaws {
  import opened Chunks
  import opened InsertionBefore
  import opened InsertionLaws
  import opened LineInsertion
  import opened Options

  // ---------------------------------------------------------------- what is added

  lemma PuttingOneBefore(f: Front, d: Insertion, line: string)
    requires Fit(f)
    ensures var r := PutBefore(f, d, line);
            && |f.lines| <= |r.lines| && Within(f.lines, r.lines)
            && forall x :: x in r.lines <==> x in f.lines || (x == line && d.selects(line))
  {
    if SkippedBefore(f, d, line) || ThereBefore(f, d, line) {
      WithinItself(f.lines);
    } else {
      WithinOneMore(f.lines, f.prev, line);
      WithOneMore(f.lines, f.prev, line);
    }
  }

  /** All lines of the file stay, in their order; the rest are selected lines of the chunk, none left out. */
  lemma {:induction false} PuttingAllBefore(f: Front, d: Insertion, pieces: seq<string>)
    requires Fit(f)
    ensures var r := PutAllBefore(f, d, pieces);
            && |f.lines| <= |r.lines| && Within(f.lines, r.lines)
            && forall x :: x in r.lines <==> x in f.lines || (x in pieces && d.selects(x))
    decreases |pieces|
  {
    if pieces == [] {
      WithinItself(f.lines);
    } else {
      var next := PutBefore(f, d, pieces[0]);
      PuttingOneBefore(f, d, pieces[0]);
      PuttingAllBefore(next, d, pieces[1..]);
      WithinIsTransitive(f.lines, next.lines, PutAllBefore(next, d, pieces[1..]).lines);
      assert pieces == [pieces[0]] + pieces[1..];
    }
  }

  /** Lines are only added, selected lines of the chunk; all of them unless it stood there or there is no begin. */
  lemma InsertionBeforeAdds(lines: seq<string>, d: Insertion, begin: Option<nat>, end: nat)
    requires Fit(FrontOf(lines, begin, end))
    ensures var r := AfterBefore(lines, d, begin, end);
            && Within(lines, r.lines)
            && (forall x | x in r.lines :: x in lines || (x in Pieces(d.chunk) && d.selects(x)))
            && (r.lines == lines || AllPresent(d, r.lines))
            && (begin.Some? && (d.source == PreserveAllLines || !StandsAt(lines, Compared(d.chunk), begin.value))
                ==> AllPresent(d, r.lines))
  {
    WithinItself(lines);
    PuttingAllBefore(FrontOf(lines, begin, end), d, Pieces(d.chunk));
  }

  // ---------------------------------------------------------------- the second run without a region

  lemma {:induction false} NothingToPutBefore(f: Front, d: Insertion, pieces: seq<string>)
    requires Fit(f) && forall line | line in pieces :: SkippedBefore(f, d, line)
    ensures PutAllBefore(f, d, pieces) == f
    decreases |pieces|
  {
    if pieces != [] {
      assert pieces[0] in pieces && forall line | line in pieces[1..] :: line in pieces;
      NothingToPutBefore(f, d, pieces[1..]);
    }
  }

  /** Without a region the begin is the first line, if there is one. */
  function WholeFile(lines: seq<string>): Option<nat> {
    if lines == [] then None else Some(0)
  }

  /** Without a region a second run inserts nothing. */
  lemma InsertionBeforeConverges(file: seq<string>, d: Insertion)
    requires d.source == Literal
    ensures var once := AfterBefore(file, d, WholeFile(file), |file|).lines;
            AfterBefore(once, d, WholeFile(once), |once|).lines == once
  {
    var once := AfterBefore(file, d, WholeFile(file), |file|).lines;
    PuttingAllBefore(FrontOf(file, WholeFile(file), |file|), d, Pieces(d.chunk));
    if AllPresent(d, once) {
      var f := FrontOf(once, WholeFile(once), |once|);
      assert once[0..|once|] == once;
      forall line | line in Pieces(d.chunk) ensures SkippedBefore(f, d, line) {
        assert d.selects(line) ==> line in once;
      }
      NothingToPutBefore(f, d, Pieces(d.chunk));
    }
  }

  // ---------------------------------------------------------------- the second run before a region

  /** The begin of the region stays where it is, and the lines are in front of it. */
  ghost predicate SettlesBefore(lines: seq<string>, d: Insertion, begin: nat, end: nat)
    requires begin < end <= |lines|
  {
    var r := AfterBefore(lines, d, Some(begin), end);
    r.begin.Some? && AfterBefore(r.lines, d, r.begin, r.end).lines == r.lines
  }

  ghost predicate RegionsBeforeConverge(d: Insertion) {
    forall lines, begin, end | 0 <= begin < end <= |lines| :: SettlesBefore(lines, d, begin, end)
  }

  /**
   * Whatever the file and its region are, a second run inserts nothing before the region exactly if
   * one line at most is selected, and none for a preserved block: only the line next to the region
   * is looked at.
   */
  lemma RegionsBeforeConvergeExactly(d: Insertion)
    ensures RegionsBeforeConverge(d)
       <==> |Selected(Pieces(d.chunk), d.selects)| <= if d.source == PreserveBlock then 0 else 1
  {
    var pieces := Pieces(d.chunk);
    var block := Selected(pieces, d.selects);
    if |block| <= if d.source == PreserveBlock then 0 else 1 {
      forall lines, begin, end | 0 <= begin < end <= |lines| ensures SettlesBefore(lines, d, begin, end) {
        if block == [] {
          NothingSelectedSettles(lines, d, begin, end);
        } else {
          OneLineSettles(lines, d, begin, end, block[0]);
        }
      }
    } else {
      var x := Longer(Compared(d.chunk) + pieces);
      LongerThanAll(Compared(d.chunk) + pieces);
      assert forall line | line in pieces :: line in Compared(d.chunk) + pieces;
      assert Compared(d.chunk)[0] == (Compared(d.chunk) + pieces)[0];
      MoreLinesDoNot(d, x);
    }
  }

  lemma {:induction false} NothingSelectedIsSkipped(pieces: seq<string>, selects: string -> bool, line: string)
    requires Selected(pieces, selects) == [] && line in pieces
    ensures !selects(line)
  {
    if line != pieces[0] {
      NothingSelectedIsSkipped(pieces[1..], selects, line);
    }
  }

  lemma NothingSelectedSettles(lines: seq<string>, d: Insertion, begin: nat, end: nat)
    requires begin < end <= |lines| && Selected(Pieces(d.chunk), d.selects) == []
    ensures SettlesBefore(lines, d, begin, end)
  {
    forall line | line in Pieces(d.chunk) ensures !d.selects(line) {
      NothingSelectedIsSkipped(Pieces(d.chunk), d.selects, line);
    }
    NothingToPutBefore(FrontOf(lines, Some(begin), end), d, Pieces(d.chunk));
  }

  lemma {:induction false} PuttingTheOnlyLine(f: Front, d: Insertion, pieces: seq<string>, line: string)
    requires Fit(f) && Selected(pieces, d.selects) == [line]
    ensures d.selects(line) && PutAllBefore(f, d, pieces) == PutBefore(f, d, line)
    decreases |pieces|
  {
    if d.selects(pieces[0]) {
      var rest := Selected(pieces[1..], d.selects);
      assert ([pieces[0]] + rest)[0] == pieces[0] && ([pieces[0]] + rest)[1..] == rest;
      assert rest == [line][1..] == [];
      var next := PutBefore(f, d, line);
      forall other | other in pieces[1..] ensures SkippedBefore(next, d, other) {
        NothingSelectedIsSkipped(pieces[1..], d.selects, other);
      }
      NothingToPutBefore(next, d, pieces[1..]);
    } else {
      PuttingTheOnlyLine(f, d, pieces[1..], line);
    }
  }

  /** One line is next to the region when the second run looks for it. */
  lemma OneLineSettles(lines: seq<string>, d: Insertion, begin: nat, end: nat, line: string)
    requires begin < end <= |lines| && d.source != PreserveBlock && Selected(Pieces(d.chunk), d.selects) == [line]
    ensures SettlesBefore(lines, d, begin, end)
  {
    var f := FrontOf(lines, Some(begin), end);
    var r := AfterBefore(lines, d, Some(begin), end);
    PuttingTheOnlyLine(f, d, Pieces(d.chunk), line);
    PuttingTheOnlyLine(FrontOf(r.lines, r.begin, r.end), d, Pieces(d.chunk), line);
  }

  // ---------------------------------------------------------------- more lines

  function Copies(x: string, m: nat): (xs: seq<string>)
    ensures |xs| == m && forall k | 0 <= k < m :: xs[k] == x
  {
    seq(m, _ => x)
  }

  /** A line that is not in the chunk, lines that are, and a region of lines that are not. */
  ghost predicate Grown(f: Front, x: string, block: seq<string>, m: nat) {
    && f.lines == [x] + block + Copies(x, m) && f.end == |f.lines|
    && f.begin == Some(1 + |block|) && f.prev == 1 + |block| && f.loc == 2 + 2 * |block|
  }

  lemma OneMoreInFront(f: Front, d: Insertion, x: string, block: seq<string>, m: nat, line: string)
    requires Grown(f, x, block, m) && m >= |block| + 2 && d.selects(line) && line != x
    ensures Fit(f) && Grown(PutBefore(f, d, line), x, block + [line], m)
  {
    var k := |block|;
    assert f.lines[k + 1..f.end] == Copies(x, m);
    assert f.lines[2 * k] == x;
    assert With(f.lines, k + 1, line) == [x] + (block + [line]) + Copies(x, m);
  }

  lemma BlocksInTurn(block: seq<string>, line: string, rest: seq<string>)
    ensures block + [line] + rest == block + ([line] + rest)
  {
  }

  /** Into such a file the whole block goes. */
  lemma {:induction false} TheBlockInFront(f: Front, d: Insertion, x: string, block: seq<string>, m: nat,
                                           pieces: seq<string>)
    requires Grown(f, x, block, m) && m >= |block| + |Selected(pieces, d.selects)| + 1 && x !in pieces
    ensures Fit(f) && Grown(PutAllBefore(f, d, pieces), x, block + Selected(pieces, d.selects), m)
    decreases |pieces|
  {
    var rest := Selected(pieces, d.selects);
    if pieces == [] {
      assert block + rest == block;
    } else {
      assert pieces[0] in pieces && forall line | line in pieces[1..] :: line in pieces;
      if d.selects(pieces[0]) {
        OneMoreInFront(f, d, x, block, m, pieces[0]);
        TheBlockInFront(PutBefore(f, d, pieces[0]), d, x, block + [pieces[0]], m, pieces[1..]);
        BlocksInTurn(block, pieces[0], Selected(pieces[1..], d.selects));
      } else {
        TheBlockInFront(f, d, x, block, m, pieces[1..]);
      }
    }
  }

  /** The region holds only copies of a line. */
  ghost predicate RegionOf(f: Front, x: string) {
    Fit(f) && f.begin.Some? && 0 < f.prev && forall k | f.begin.value <= k < f.end :: f.lines[k] == x
  }

  lemma NotInTheRegion(f: Front, x: string, line: string)
    requires RegionOf(f, x) && line != x
    ensures !InRegionOf(f, line)
  {
    var region := f.lines[f.begin.value..f.end];
    assert forall k | 0 <= k < |region| :: region[k] == f.lines[f.begin.value + k];
  }

  /** With such a line in front of the location the next selected line is inserted. */
  lemma {:induction false} TheNextIsInserted(f: Front, d: Insertion, x: string, pieces: seq<string>)
    requires RegionOf(f, x) && x !in pieces && Selected(pieces, d.selects) != []
    requires 1 < f.loc && f.lines[f.loc - 2] == x
    ensures |PutAllBefore(f, d, pieces).lines| > |f.lines|
    decreases |pieces|
  {
    var line := pieces[0];
    assert line in pieces && forall other | other in pieces[1..] :: other in pieces;
    if d.selects(line) {
      NotInTheRegion(f, x, line);
      PuttingAllBefore(PutBefore(f, d, line), d, pieces[1..]);
    } else {
      TheNextIsInserted(f, d, x, pieces[1..]);
    }
  }

  /** Of two selected lines at least the second one is. */
  lemma {:induction false} OneOfTwoIsInserted(f: Front, d: Insertion, x: string, pieces: seq<string>)
    requires RegionOf(f, x) && x !in pieces && f.prev < |f.lines|
    requires |Selected(pieces, d.selects)| > if d.source == PreserveBlock then 0 else 1
    requires 0 < f.loc < |f.lines| && f.lines[f.loc - 1] == x
    ensures |PutAllBefore(f, d, pieces).lines| > |f.lines|
    decreases |pieces|
  {
    var line := pieces[0];
    assert line in pieces && forall other | other in pieces[1..] :: other in pieces;
    if !d.selects(line) {
      OneOfTwoIsInserted(f, d, x, pieces[1..]);
    } else {
      NotInTheRegion(f, x, line);
      if ThereBefore(f, d, line) {
        TheNextIsInserted(PutBefore(f, d, line), d, x, pieces[1..]);
      } else {
        PuttingAllBefore(PutBefore(f, d, line), d, pieces[1..]);
      }
    }
  }

  lemma MoreLinesDoNot(d: Insertion, x: string)
    requires x !in Pieces(d.chunk) && x != Compared(d.chunk)[0]
    requires |Selected(Pieces(d.chunk), d.selects)| > if d.source == PreserveBlock then 0 else 1
    ensures !RegionsBeforeConverge(d)
  {
    var pieces, block := Pieces(d.chunk), Selected(Pieces(d.chunk), d.selects);
    var m := |block| + 2;
    var lines := [x] + Copies(x, m);
    var f := FrontOf(lines, Some(1), |lines|);
    assert [x] + [] + Copies(x, m) == lines;
    TheBlockInFront(f, d, x, [], m, pieces);
    assert [] + block == block;
    var r := AfterBefore(lines, d, Some(1), |lines|);
    assert !StandsAt(lines, Compared(d.chunk), 1);
    assert Grown(r, x, block, m);
    AgainInFront(d, x, r, block, m);
    assert !SettlesBefore(lines, d, 1, |lines|);
  }

  lemma AgainInFront(d: Insertion, x: string, r: Front, block: seq<string>, m: nat)
    requires x !in Pieces(d.chunk) && x != Compared(d.chunk)[0] && Grown(r, x, block, m) && m >= 2
    requires block == Selected(Pieces(d.chunk), d.selects)
    requires |block| > if d.source == PreserveBlock then 0 else 1
    ensures Fit(FrontOf(r.lines, r.begin, r.end))
    ensures |AfterBefore(r.lines, d, r.begin, r.end).lines| > |r.lines|
  {
    var n := |block|;
    assert r.lines[1 + n] == x && forall k | 1 + n <= k < |r.lines| :: r.lines[k] == x;
    assert !StandsAt(r.lines, Compared(d.chunk), 1 + n);
    OneOfTwoIsInserted(FrontOf(r.lines, r.begin, r.end), d, x, Pieces(d.chunk));
  }

  /** The lines a, b before the region s, t: every run puts them there again. */
  lemma TwoLinesKeepGrowing(d: Insertion)
    requires d.chunk == "a\nb" && d.source == Literal && d.selects("a") && d.selects("b")
    ensures AfterBefore(["h", "s", "t"], d, Some(1), 3).lines == ["h", "a", "b", "s", "t"]
    ensures AfterBefore(["h", "s", "t"], d, Some(1), 3).begin == Some(3)
    ensures AfterBefore(["h", "a", "b", "s", "t"], d, Some(3), 5).lines == ["h", "a", "b", "a", "b", "s", "t"]
  {
    TwoLineChunks("a", "b");
    assert "a" + "\n" + "b" == d.chunk;
    PuttingTwo(["h", "s", "t"], d, 1, 3, "a", "b");
    PuttingTwo(["h", "a", "b", "s", "t"], d, 3, 5, "a", "b");
    assert ["h"] + ["a", "b"] + ["s", "t"] == ["h", "a", "b", "s", "t"];
    assert ["h", "a", "b"] + ["a", "b"] + ["s", "t"] == ["h", "a", "b", "a", "b", "s", "t"];
    assert ["h", "s", "t"][..1] == ["h"] && ["h", "s", "t"][1..] == ["s", "t"];
    assert ["h", "a", "b", "s", "t"][..3] == ["h", "a", "b"] && ["h", "a", "b", "s", "t"][3..] == ["s", "t"];
  }

  lemma PuttingTwo(lines: seq<string>, d: Insertion, begin: nat, end: nat, a: string, b: string)
    requires 0 < begin && begin + 1 < end <= |lines| && d.source == Literal && d.selects(a) && d.selects(b)
    requires Pieces(d.chunk) == Compared(d.chunk) == [a, b]
    requires a !in lines[begin..end] && b !in lines[begin..end] && lines[begin - 1] != a
    ensures var r := AfterBefore(lines, d, Some(begin), end);
            r.lines == lines[..begin] + [a, b] + lines[begin..] && r.begin == Some(begin + 2)
  {
    var f := FrontOf(lines, Some(begin), end);
    assert lines[begin..end][0] == lines[begin];
    assert lines[begin + 0] != [a, b][0];
    PuttingBoth(f, d, a, b);
    PuttingTwoInFront(f, d, begin, end, a, b);
    TwoLinesMore(lines, begin, a, b);
  }

  lemma PuttingTwoInFront(f: Front, d: Insertion, begin: nat, end: nat, a: string, b: string)
    requires 0 < begin && begin + 1 < end <= |f.lines| && d.source == Literal && d.selects(a) && d.selects(b)
    requires f == FrontOf(f.lines, Some(begin), end)
    requires a !in f.lines[begin..end] && b !in f.lines[begin..end] && f.lines[begin - 1] != a
    ensures var r := PutBefore(PutBefore(f, d, a), d, b);
            r.lines == With(With(f.lines, begin, a), begin + 1, b) && r.begin == Some(begin + 2)
  {
    PuttingInFront(f, d, a);
    var g := Front(With(f.lines, begin, a), Some(begin + 1), end + 1, begin + 1, NextOf(begin + 2, |f.lines| + 1));
    RegionMovesOn(f.lines, begin, end, a);
    PuttingInFront(g, d, b);
  }

  lemma TwoLinesMore(lines: seq<string>, p: nat, a: string, b: string)
    requires p <= |lines|
    ensures With(With(lines, p, a), p + 1, b) == lines[..p] + [a, b] + lines[p..]
  {
  }

  lemma RegionMovesOn(lines: seq<string>, begin: nat, end: nat, a: string)
    requires begin < end <= |lines|
    ensures With(lines, begin, a)[begin + 1..end + 1] == lines[begin..end]
    ensures With(lines, begin, a)[begin + 1] == lines[begin] == lines[begin..end][0]
  {
  }

  lemma PuttingBoth(f: Front, d: Insertion, a: string, b: string)
    requires Fit(f)
    ensures PutAllBefore(f, d, [a, b]) == PutBefore(PutBefore(f, d, a), d, b)
  {
    assert [a, b][1..] == [b] && [b][1..] == [];
    assert PutAllBefore(PutBefore(f, d, a), d, [b]) == PutBefore(PutBefore(f, d, a), d, b);
  }

  lemma PuttingInFront(f: Front, d: Insertion, line: string)
    requires Fit(f) && d.source == Literal && d.selects(line) && !InRegionOf(f, line)
    requires f.begin == Some(f.prev) && 0 < f.prev < f.loc && f.lines[f.loc - 2] != line
    ensures PutBefore(f, d, line)
         == Front(With(f.lines, f.prev, line), Some(f.prev + 1), f.end + 1, f.prev + 1, NextOf(f.loc + 1, |f.lines| + 1))
  {
  }
}
