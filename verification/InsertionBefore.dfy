// Inserting the lines of a promised chunk in the order "before", after files_editline.c: before the
// begin of the region, or before a location.
module InsertionBefore {
  import opened Chunks
  import opened InsertionLaws
  import opened ItemEditing
  import opened ItemLists
  import opened LineDeletion
  import opened LineInsertion
  import opened Options

  // ---------------------------------------------------------------- what is inserted

  /**
   * The lines of a file, the begin and the end of its region, and two pointers into it: 0 is NULL,
   * i is the line i - 1.
   */
  datatype Front = Front(lines: seq<string>, begin: Option<nat>, end: nat, prev: nat, loc: nat)

  ghost predicate Fit(f: Front) {
    && f.end <= |f.lines| && f.prev <= |f.lines| && f.loc <= |f.lines|
    && (f.begin.Some? ==> f.begin.value < f.end)
  }

  ghost predicate InRegionOf(f: Front, line: string)
    requires Fit(f)
  {
    f.begin.Some? && line in f.lines[f.begin.value..f.end]
  }

  ghost predicate SkippedBefore(f: Front, d: Insertion, line: string)
    requires Fit(f)
  {
    !d.selects(line) || (d.source == Literal && InRegionOf(f, line))
  }

  /** Behind NULL comes the first line. */
  function NextOf(i: nat, n: nat): nat {
    if i < n then i + 1 else 0
  }

  function Shifted(i: nat, p: nat): nat {
    if i > p then i + 1 else i
  }

  function ShiftedBegin(begin: Option<nat>, p: nat): Option<nat> {
    match begin case None => None case Some(b) => Some(if p <= b then b + 1 else b)
  }

  /** The pointers behind an insertion, or behind a line that was there: both move on. */
  function MovedOn(f: Front, d: Insertion): Front {
    var loc := if d.source != Literal && f.loc == 0 && f.prev == 0 then 1 else f.loc;
    f.(prev := NextOf(f.prev, |f.lines|), loc := NextOf(loc, |f.lines|))
  }

  ghost function WithLine(f: Front, line: string): Front
    requires Fit(f)
  {
    Front(With(f.lines, f.prev, line), ShiftedBegin(f.begin, f.prev), if f.prev <= f.end then f.end + 1 else f.end,
          f.prev, Shifted(f.loc, f.prev))
  }

  predicate ThereBefore(f: Front, d: Insertion, line: string) {
    There(f.lines, line, true, f.loc, f.prev, d.source == PreserveBlock)
  }

  /** One line is put behind prev, unless it is there. */
  ghost function PutBefore(f: Front, d: Insertion, line: string): (r: Front)
    requires Fit(f)
    ensures Fit(r)
  {
    if SkippedBefore(f, d, line) then f
    else MovedOn(if ThereBefore(f, d, line) then f else WithLine(f, line), d)
  }

  ghost function PutAllBefore(f: Front, d: Insertion, pieces: seq<string>): (r: Front)
    requires Fit(f)
    ensures Fit(r)
    decreases |pieces|
  {
    if pieces == [] then f else PutAllBefore(PutBefore(f, d, pieces[0]), d, pieces[1..])
  }

  /** The pointers in front of the begin of the region. */
  function FrontOf(lines: seq<string>, begin: Option<nat>, end: nat): Front {
    match begin
    case None => Front(lines, None, end, 0, 0)
    case Some(b) => Front(lines, begin, end, b, b + 1)
  }

  /** The file after the insertion in front of its region: without a begin only an empty file takes lines. */
  ghost function AfterBefore(lines: seq<string>, d: Insertion, begin: Option<nat>, end: nat): Front
    requires Fit(FrontOf(lines, begin, end))
  {
    var f := FrontOf(lines, begin, end);
    if lines != [] && begin.None? then f
    else if d.source != PreserveAllLines && begin.Some? && StandsAt(lines, Compared(d.chunk), begin.value) then f
    else PutAllBefore(f, d, Pieces(d.chunk))
  }

  // ---------------------------------------------------------------- the operations

  /** The region and the two pointers in the file. */
  ghost predicate Points(nodes: seq<Item>, lines: seq<string>, begin: Item?, end: Item?, location: Item?, prev: Item?,
                         f: Front)
  {
    && f.lines == lines && |lines| == |nodes| && Fit(f)
    && begin == (if f.begin.Some? then nodes[f.begin.value] else null)
    && end == At(nodes, f.end)
    && location == (if f.loc == 0 then null else nodes[f.loc - 1])
    && prev == if f.prev == 0 then null else nodes[f.prev - 1]
  }

  // A line more behind prev.
  lemma PointsAfterInsertion(nodes: seq<Item>, lines: seq<string>, begin: Item?, end: Item?, location: Item?,
                             prev: Item?, f: Front, line: string, added: Item)
    requires Points(nodes, lines, begin, end, location, prev, f)
    ensures Points(With(nodes, f.prev, added), With(lines, f.prev, line), begin, end, location, prev, WithLine(f, line))
  {
    PointerAfterInsertion(nodes, f.prev, f.prev, added);
    PointerAfterInsertion(nodes, f.loc, f.prev, added);
  }

  lemma PointerAfterInsertion(nodes: seq<Item>, i: nat, p: nat, added: Item)
    requires i <= |nodes| && p <= |nodes|
    ensures i > 0 ==> With(nodes, p, added)[Shifted(i, p) - 1] == nodes[i - 1]
  {
  }

  method Next(file: LineFile, item: Item?, ghost i: nat) returns (next: Item?)
    requires file.Valid() && i <= |file.nodes| && item == if i == 0 then null else file.nodes[i - 1]
    ensures var j := NextOf(i, |file.nodes|); next == if j == 0 then null else file.nodes[j - 1]
  {
    next := if item != null then item.next else file.start;
  }

  method MovePointersOn(file: LineFile, d: Insertion, begin: Item?, end: Item?, location: Item?, prev: Item?,
                        ghost f: Front)
    returns (nextLocation: Item?, nextPrev: Item?)
    requires file.Valid() && Points(file.nodes, file.lines, begin, end, location, prev, f) && file.nodes != []
    ensures Points(file.nodes, file.lines, begin, end, nextLocation, nextPrev, MovedOn(f, d))
  {
    nextLocation := location;
    ghost var loc := f.loc;
    if d.source != Literal && location == null && prev == null {
      nextLocation, loc := file.start, 1;
    }
    nextPrev := Next(file, prev, f.prev);
    nextLocation := Next(file, nextLocation, loc);
  }

  /** A line that is not skipped. */
  method InsertLineBefore(file: LineFile, line: string, d: Insertion, begin: Item?, end: Item?, location: Item?,
                          prev: Item?, ghost f: Front)
    returns (nextLocation: Item?, nextPrev: Item?, inserted: bool)
    requires file.Valid() && Points(file.nodes, file.lines, begin, end, location, prev, f) && !SkippedBefore(f, d, line)
    modifies file, file.nodes`next
    ensures file.Valid() && Points(file.nodes, file.lines, begin, end, nextLocation, nextPrev, PutBefore(f, d, line))
    ensures inserted <==> !ThereBefore(f, d, line)
    ensures if inserted then OneMore(file, f.prev, line) && file.numEdits == old(file.numEdits) + 1
            else unchanged(file)
  {
    ghost var nodes := file.nodes;
    inserted := InsertLineAtLocation(file, line, location, prev, true, d.source == PreserveBlock, false, f.loc, f.prev);
    ghost var g := f;
    if inserted {
      g := WithLine(f, line);
      PointsAfterInsertion(nodes, f.lines, begin, end, location, prev, f, line, file.nodes[f.prev]);
    }
    nextLocation, nextPrev := MovePointersOn(file, d, begin, end, location, prev, g);
  }

  method Skips(file: LineFile, line: string, d: Insertion, begin: Item?, end: Item?, ghost location: Item?,
               ghost prev: Item?, ghost f: Front)
    returns (skips: bool)
    requires file.Valid() && Points(file.nodes, file.lines, begin, end, location, prev, f)
    ensures skips <==> SkippedBefore(f, d, line)
  {
    if !d.selects(line) {
      return true;
    }
    if d.source == Literal {
      skips := IsItemInRegion(file, line, begin, end, if f.begin.Some? then f.begin.value else |file.nodes|,
                              if f.begin.Some? then f.end else |file.nodes|);
      return;
    }
    return false;
  }

  /** One turn of the loop over the lines of the chunk. */
  method InsertPieceBefore(file: LineFile, line: string, d: Insertion, begin: Item?, end: Item?, location: Item?,
                           prev: Item?, ghost f: Front)
    returns (nextLocation: Item?, nextPrev: Item?, inserted: bool)
    requires file.Valid() && Points(file.nodes, file.lines, begin, end, location, prev, f)
    modifies file, file.nodes`next
    ensures file.Valid() && Points(file.nodes, file.lines, begin, end, nextLocation, nextPrev, PutBefore(f, d, line))
    ensures forall k | 0 <= k < |file.nodes| :: file.nodes[k] in old(file.nodes) || fresh(file.nodes[k])
    ensures |file.lines| == |old(file.lines)| + if inserted then 1 else 0
    ensures file.numEdits == old(file.numEdits) + if inserted then 1 else 0
  {
    nextLocation, nextPrev, inserted := location, prev, false;
    var skips := Skips(file, line, d, begin, end, location, prev, f);
    if skips {
      return;
    }
    nextLocation, nextPrev, inserted := InsertLineBefore(file, line, d, begin, end, location, prev, f);
    forall k | 0 <= k < |file.nodes| ensures file.nodes[k] in old(file.nodes) || fresh(file.nodes[k]) {
      assert inserted && k != f.prev ==> file.nodes[k] == old(file.nodes)[if k < f.prev then k else k - 1];
    }
  }

  /** The next line of the chunk. */
  method InsertNextBefore(file: LineFile, d: Insertion, begin: Item?, end: Item?, location: Item?, prev: Item?, sp: nat,
                          ghost f: Front)
    returns (nextLocation: Item?, nextPrev: Item?, inserted: bool, after: nat, ghost r: Front)
    requires file.Valid() && Points(file.nodes, file.lines, begin, end, location, prev, f) && sp <= |d.chunk|
    modifies file, file.nodes`next
    ensures file.Valid() && Points(file.nodes, file.lines, begin, end, nextLocation, nextPrev, r) && sp < after
    ensures PutAllBefore(r, d, PiecesFrom(d.chunk, after)) == PutAllBefore(f, d, PiecesFrom(d.chunk, sp))
    ensures forall k | 0 <= k < |file.nodes| :: file.nodes[k] in old(file.nodes) || fresh(file.nodes[k])
    ensures |file.lines| == |old(file.lines)| + if inserted then 1 else 0
    ensures file.numEdits == old(file.numEdits) + if inserted then 1 else 0
  {
    var buf := Buffered(LineAt(d.chunk, sp));
    OnePieceAndTheOthers(f, d, sp);
    r := PutBefore(f, d, buf);
    nextLocation, nextPrev, inserted := InsertPieceBefore(file, buf, d, begin, end, location, prev, f);
    after := sp + |buf| + 1;
  }

  lemma OnePieceAndTheOthers(f: Front, d: Insertion, sp: nat)
    requires Fit(f) && sp <= |d.chunk|
    ensures var buf := Buffered(LineAt(d.chunk, sp));
            PutAllBefore(f, d, PiecesFrom(d.chunk, sp)) ==
            PutAllBefore(PutBefore(f, d, buf), d, PiecesFrom(d.chunk, sp + |buf| + 1))
  {
    var buf := Buffered(LineAt(d.chunk, sp));
    assert PiecesFrom(d.chunk, sp) == [buf] + PiecesFrom(d.chunk, sp + |buf| + 1);
    assert PiecesFrom(d.chunk, sp)[1..] == PiecesFrom(d.chunk, sp + |buf| + 1);
  }

  /** The loop over the lines of the chunk. */
  method InsertPiecesBefore(file: LineFile, d: Insertion, begin: Item?, end: Item?, locationAtStart: Item?,
                            prevAtStart: Item?, ghost f: Front)
    returns (inserts: nat)
    requires file.Valid() && Points(file.nodes, file.lines, begin, end, locationAtStart, prevAtStart, f)
    modifies file, file.nodes`next
    ensures var r := PutAllBefore(f, d, Pieces(d.chunk));
            && file.Valid() && file.lines == r.lines && end == At(file.nodes, r.end)
            && begin == if r.begin.Some? then file.nodes[r.begin.value] else null
    ensures |file.lines| == |old(file.lines)| + inserts && file.numEdits == old(file.numEdits) + inserts
  {
    var location, prev, sp := locationAtStart, prevAtStart, 0;
    ghost var g := f;
    inserts := 0;
    while sp <= |d.chunk|
      invariant file.Valid() && Points(file.nodes, file.lines, begin, end, location, prev, g)
      invariant forall k | 0 <= k < |file.nodes| :: file.nodes[k] in old(file.nodes) || fresh(file.nodes[k])
      invariant PutAllBefore(g, d, PiecesFrom(d.chunk, sp)) == PutAllBefore(f, d, Pieces(d.chunk))
      invariant |file.lines| == |old(file.lines)| + inserts && file.numEdits == old(file.numEdits) + inserts
      decreases |d.chunk| + 1 - sp
    {
      ghost var before := file.nodes;
      var inserted;
      location, prev, inserted, sp, g := InsertNextBefore(file, d, begin, end, location, prev, sp, g);
      forall k | 0 <= k < |file.nodes| ensures file.nodes[k] in old(file.nodes) || fresh(file.nodes[k]) {
        assert file.nodes[k] in before ==> exists j :: 0 <= j < |before| && before[j] == file.nodes[k];
      }
      inserts := if inserted then inserts + 1 else inserts;
    }
  }

  /** Nothing if the chunk stands from the location on. */
  method InsertCompoundLineBefore(file: LineFile, d: Insertion, begin: Item?, end: Item?, location: Item?, prev: Item?,
                                  ghost f: Front)
    returns (retval: bool, ghost r: Front)
    requires file.Valid() && Points(file.nodes, file.lines, begin, end, location, prev, f)
    modifies file, file.nodes`next
    ensures file.Valid() && file.lines == r.lines && end == At(file.nodes, r.end) && Fit(r)
    ensures begin == if r.begin.Some? then file.nodes[r.begin.value] else null
    ensures r == if d.source != PreserveAllLines && f.loc > 0 && StandsAt(f.lines, Compared(d.chunk), f.loc - 1)
                 then f else PutAllBefore(f, d, Pieces(d.chunk))
    ensures |file.lines| >= |old(file.lines)| && (retval <==> |file.lines| > |old(file.lines)|)
    ensures file.numEdits == old(file.numEdits) + |file.lines| - |old(file.lines)|
  {
    if d.source != PreserveAllLines {
      assert file.lines[..|file.lines|] == file.lines;
      ghost var i := if f.loc == 0 then |file.nodes| else f.loc - 1;
      var stands := ChunkStandsHere(file, d.chunk, location, null, i, |file.nodes|);
      if stands {
        return false, f;
      }
    }
    var inserts := InsertPiecesBefore(file, d, begin, end, location, prev, f);
    retval, r := inserts > 0, PutAllBefore(f, d, Pieces(d.chunk));
  }

  /** InsertMultipleLinesToRegion in the order "before": the loop looks for the begin of the region. */
  method InsertMultipleLinesBefore(file: LineFile, d: Insertion, begin: Item?, end: Item?, ghost b: Option<nat>,
                                   ghost e: nat)
    returns (retval: bool, ghost r: Front)
    requires file.Valid() && Fit(FrontOf(file.lines, b, e)) && end == At(file.nodes, e)
    requires begin == if b.Some? then file.nodes[b.value] else null
    modifies file, file.nodes`next
    ensures file.Valid() && r == AfterBefore(old(file.lines), d, b, e) && file.lines == r.lines
    ensures end == At(file.nodes, r.end) && begin == if r.begin.Some? then file.nodes[r.begin.value] else null
    ensures retval <==> |file.lines| > |old(file.lines)|
    ensures file.numEdits == old(file.numEdits) + |file.lines| - |old(file.lines)|
  {
    if file.start == null {
      retval, r := InsertCompoundLineBefore(file, d, begin, end, null, null, FrontOf(file.lines, b, e));
      return;
    }
    var found, prev := FindBegin(file, begin, b);
    if !found {
      return false, FrontOf(file.lines, b, e);
    }
    retval, r := InsertCompoundLineBefore(file, d, begin, end, begin, prev, FrontOf(file.lines, b, e));
  }

  method FindBegin(file: LineFile, begin: Item?, ghost b: Option<nat>) returns (found: bool, prev: Item?)
    requires file.Valid() && (b.Some? ==> b.value < |file.nodes|)
    requires begin == if b.Some? then file.nodes[b.value] else null
    ensures found <==> b.Some?
    ensures found ==> prev == if b.value == 0 then null else file.nodes[b.value - 1]
  {
    ChainNodesAreDistinct(file.start, file.nodes);
    prev := null;
    var ip := file.start;
    ghost var i := 0;
    while ip != null
      invariant i <= |file.nodes| && ip == At(file.nodes, i) && (b.Some? ==> i <= b.value)
      invariant prev == if i == 0 then null else file.nodes[i - 1]
      decreases |file.nodes| - i
    {
      if ip == begin {
        return true, prev;
      }
      prev := ip;
      ip, i := ip.next, i + 1;
    }
    return false, prev;
  }
}
