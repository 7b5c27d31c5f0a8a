// Inserting the lines of a promised chunk after the last line of the file or of a region, after
// files_editline.c. No whitespace policy; the line selection is a parameter.
module LineInsertion {
  import opened Chunks
  import opened ItemEditing
  import opened ItemLists
  import opened LineDeletion
  import opened Options

  // ---------------------------------------------------------------- what is inserted

  datatype SourceType = Literal | PreserveBlock | PreserveAllLines

  datatype Insertion = Insertion(chunk: string, source: SourceType, selects: string -> bool)

  /** These lines stand in the file one after the other. */
  ghost predicate Holds(file: seq<string>, chunk: seq<string>) {
    exists i :: StandsAt(file, chunk, i)
  }

  predicate StandsAt(file: seq<string>, chunk: seq<string>, i: nat) {
    i + |chunk| <= |file| && forall k | 0 <= k < |chunk| :: file[i + k] == chunk[k]
  }

  ghost function With<T>(s: seq<T>, p: nat, x: T): (r: seq<T>)
    requires p <= |s|
    ensures |r| == |s| + 1
    ensures forall k | 0 <= k < |r| :: r[k] == if k < p then s[k] else if k == p then x else s[k - 1]
  {
    s[..p] + [x] + s[p..]
  }

  /** The lines of a file, the end of its region, and the place behind the location. */
  datatype Spot = Spot(lines: seq<string>, end: nat, pos: nat)

  /** Only an empty file has no location; without a start the region is empty for good. */
  ghost predicate Apt(s: Spot, begin: Option<nat>) {
    && s.end <= |s.lines| && s.pos <= |s.lines| && (s.pos == 0 ==> s.lines == [])
    && (begin.Some? ==> begin.value < s.end && begin.value < s.pos)
  }

  ghost predicate InRegion(s: Spot, begin: Option<nat>, line: string)
    requires Apt(s, begin)
  {
    begin.Some? && line in s.lines[begin.value..s.end]
  }

  /** Not selected, or in the region already, unless a block is preserved. */
  ghost predicate Skipped(s: Spot, d: Insertion, begin: Option<nat>, line: string)
    requires Apt(s, begin)
  {
    !d.selects(line) || (d.source == Literal && InRegion(s, begin, line))
  }

  /** The line stands behind the location already. */
  predicate Follows(s: Spot, d: Insertion, line: string) {
    d.source != PreserveBlock && 0 < s.pos < |s.lines| && s.lines[s.pos] == line
  }

  /** One line is put behind the location, which moves on to it. */
  ghost function Put(s: Spot, d: Insertion, begin: Option<nat>, line: string): (r: Spot)
    requires Apt(s, begin)
    ensures Apt(r, begin)
  {
    if Skipped(s, d, begin, line) then s
    else if Follows(s, d, line) then s.(pos := s.pos + 1)
    else Spot(With(s.lines, s.pos, line), if s.pos <= s.end then s.end + 1 else s.end, s.pos + 1)
  }

  ghost function PutAll(s: Spot, d: Insertion, begin: Option<nat>, pieces: seq<string>): (r: Spot)
    requires Apt(s, begin)
    ensures Apt(r, begin)
    decreases |pieces|
  {
    if pieces == [] then s else PutAll(Put(s, d, begin, pieces[0]), d, begin, pieces[1..])
  }

  /** The chunk stands in the file before the end of the region, or from its last line on. */
  ghost predicate InPlace(lines: seq<string>, end: nat, compared: seq<string>)
    requires end <= |lines|
  {
    Holds(lines[..end], compared) || (end > 0 && StandsAt(lines, compared, end - 1))
  }

  /** The file after the insertion at the end of the region, and where the region ends then. */
  ghost function After(lines: seq<string>, d: Insertion, begin: Option<nat>, end: nat): Spot
    requires Apt(Spot(lines, end, end), begin)
  {
    if d.source != PreserveAllLines && InPlace(lines, end, Compared(d.chunk)) then Spot(lines, end, end)
    else PutAll(Spot(lines, end, end), d, begin, Pieces(d.chunk))
  }

  // ---------------------------------------------------------------- the operations

  // MatchPolicy without a whitespace policy.
  const EXACTLY: (string, string) -> bool := (line, name) => line == name

  method IsItemInRegion(file: LineFile, item: string, begin: Item?, end: Item?, ghost from: nat, ghost until: nat)
    returns (found: bool)
    requires file.Valid() && begin == At(file.nodes, from) && StopsAt(file.nodes, from, end, until)
    ensures found <==> item in file.lines[from..until]
  {
    ChainNodesAreDistinct(file.start, file.nodes);
    var ip := begin;
    ghost var i := from;
    while ip != end && ip != null
      invariant from <= i <= until && ip == At(file.nodes, i)
      invariant forall k | from <= k < i :: file.lines[k] != item
      decreases until - i
    {
      assert ip.name == file.lines[i];
      if item == ip.name {
        assert file.lines[from..until][i - from] == item;
        return true;
      }
      ip, i := ip.next, i + 1;
    }
    return false;
  }

  /** The line before the location, or the line after it, is this one. */
  method NeighbourItemMatches(file: LineFile, location: Item?, line: string, before: bool, ghost pos: nat)
    returns (matches: bool)
    requires file.Valid() && pos <= |file.nodes| && location == (if pos == 0 then null else file.nodes[pos - 1])
    ensures matches <==> if before then pos > 1 && file.lines[pos - 2] == line
                         else 0 < pos < |file.lines| && file.lines[pos] == line
  {
    ChainNodesAreDistinct(file.start, file.nodes);
    var ip := file.start;
    ghost var i := 0;
    while ip != null
      invariant i <= |file.nodes| && ip == At(file.nodes, i)
      invariant pos > 0 ==> i < if before && pos > 1 then pos - 1 else if before then |file.nodes| + 1 else pos
      decreases |file.nodes| - i
    {
      if before {
        if ip.next != null && ip.next == location {
          return ip.name == line;
        }
      } else if ip == location {
        return ip.next != null && ip.next.name == line;
      }
      ip, i := ip.next, i + 1;
    }
    return false;
  }

  method AppendItem(file: LineFile, line: string)
    requires file.Valid()
    modifies file, file.nodes`next
    ensures file.Valid() && |file.nodes| == |old(file.nodes)| + 1 && fresh(file.nodes[|old(file.nodes)|])
    ensures file.nodes == old(file.nodes) + [file.nodes[|old(file.nodes)|]]
    ensures file.lines == old(file.lines) + [line] && file.numEdits == old(file.numEdits)
  {
    var added := new Item(line, None, 0, 0, null);
    if file.start == null {
      file.start := added;
    } else {
      ChainNodesAreDistinct(file.start, file.nodes);
      var end := EndOfList(file.start, file.nodes);
      end.value.next := added;
    }
    file.nodes := file.nodes + [added];
    file.lines := file.lines + [line];
  }

  /** The file with one line more at this place, the other nodes as they were. */
  twostate predicate OneMore(file: LineFile, p: nat, line: string)
    reads file
  {
    && p <= |old(file.nodes)| == |old(file.lines)| && p < |file.nodes| && fresh(file.nodes[p])
    && file.nodes == With(old(file.nodes), p, file.nodes[p]) && file.lines == With(old(file.lines), p, line)
  }

  /** The new line follows the location, or the last line where there is no location. */
  method InsertAfter(file: LineFile, location: Item?, line: string, ghost at: nat)
    requires file.Valid() && at <= |file.nodes| && location == (if at == 0 then null else file.nodes[at - 1])
    modifies file, file.nodes`next
    ensures file.Valid() && OneMore(file, if at == 0 then |old(file.nodes)| else at, line)
    ensures file.numEdits == old(file.numEdits)
  {
    if file.start == null || location == null {
      AppendItem(file, line);
      return;
    }
    LinkAfter(file, location, line, at);
  }

  method LinkAfter(file: LineFile, location: Item, line: string, ghost at: nat)
    requires file.Valid() && 0 < at <= |file.nodes| && location == file.nodes[at - 1]
    modifies file, location`next
    ensures file.Valid() && OneMore(file, at, line) && file.numEdits == old(file.numEdits)
  {
    ChainNodesAreDistinct(file.start, file.nodes);
    var added := new Item(line, None, 0, 0, null);
    added.next := location.next;
    location.next := added;
    file.nodes := With(file.nodes, at, added);
    file.lines := With(file.lines, at, line);
  }

  method PrependItem(file: LineFile, line: string)
    requires file.Valid()
    modifies file
    ensures file.Valid() && OneMore(file, 0, line) && file.numEdits == old(file.numEdits)
  {
    var added := new Item(line, None, 0, 0, file.start);
    file.start := added;
    file.nodes := With(file.nodes, 0, added);
    file.lines := With(file.lines, 0, line);
  }

  /** Where the line is inserted: the place behind prev, or behind the location. */
  function Place(before: bool, pos: nat, after: nat, n: nat): nat {
    if before then after else if pos == 0 then n else pos
  }

  /** The line is there already: at the start of the file, or next to the location. */
  predicate There(lines: seq<string>, line: string, before: bool, pos: nat, after: nat, preserve: bool) {
    if before && after == 0 then lines != [] && lines[0] == line
    else if before then !preserve && 1 < pos <= |lines| && lines[pos - 2] == line
    else !preserve && 0 < pos < |lines| && lines[pos] == line
  }

  method InsertAtStart(file: LineFile, line: string, warn: bool) returns (retval: bool)
    requires file.Valid()
    modifies file
    ensures retval <==> !(old(file.lines) != [] && old(file.lines)[0] == line)
    ensures if retval && !warn
            then file.Valid() && OneMore(file, 0, line) && file.numEdits == old(file.numEdits) + 1
            else unchanged(file)
  {
    if file.start != null && file.start.name == line {
      return false;
    }
    if !warn {
      PrependItem(file, line);
      file.numEdits := file.numEdits + 1;
    }
    return true;
  }

  /** A warning counts as an edit, though nothing is inserted. */
  method InsertLineAtLocation(file: LineFile, line: string, location: Item?, prev: Item?, before: bool, preserve: bool,
                              warn: bool, ghost pos: nat, ghost after: nat)
    returns (retval: bool)
    requires file.Valid() && pos <= |file.nodes| && after <= |file.nodes|
    requires location == (if pos == 0 then null else file.nodes[pos - 1])
    requires prev == (if after == 0 then null else file.nodes[after - 1])
    modifies file, file.nodes`next
    ensures retval <==> !There(old(file.lines), line, before, pos, after, preserve)
    ensures if retval && !warn
            then file.Valid() && OneMore(file, Place(before, pos, after, |old(file.nodes)|), line)
                 && file.numEdits == old(file.numEdits) + 1
            else unchanged(file) && unchanged(old(file.nodes)`next)
  {
    if prev == null && before {
      retval := InsertAtStart(file, line, warn);
      return;
    }
    var matches := false;
    if !preserve {
      matches := NeighbourItemMatches(file, location, line, before, pos);
    }
    if matches {
      return false;
    }
    if !warn {
      if before {
        InsertAfter(file, prev, line, after);
      } else {
        InsertAfter(file, location, line, pos);
      }
      file.numEdits := file.numEdits + 1;
    }
    return true;
  }

  // ---------------------------------------------------------------- chunks

  /** The region and the location in the file. */
  ghost predicate Stands(nodes: seq<Item>, lines: seq<string>, begin: Item?, end: Item?, location: Item?, s: Spot,
                         b: Option<nat>)
  {
    && s.lines == lines && |lines| == |nodes| && Apt(s, b)
    && begin == (if b.Some? then nodes[b.value] else null)
    && end == At(nodes, s.end)
    && location == if s.pos == 0 then null else nodes[s.pos - 1]
  }

  method MoveOn(file: LineFile, location: Item?, ghost pos: nat) returns (next: Item?)
    requires file.Valid() && pos < |file.nodes| && location == if pos == 0 then null else file.nodes[pos - 1]
    ensures next == file.nodes[pos]
  {
    next := if location != null then location.next else file.start;
  }

  method InsertBehind(file: LineFile, line: string, location: Item?, preserve: bool, ghost pos: nat)
    returns (inserted: bool, next: Item?)
    requires file.Valid() && pos <= |file.nodes| && (pos == 0 ==> file.nodes == [])
    requires location == if pos == 0 then null else file.nodes[pos - 1]
    modifies file, file.nodes`next
    ensures file.Valid() && pos < |file.nodes| == |file.lines| && next == file.nodes[pos]
    ensures inserted <==> !(!preserve && 0 < pos < |old(file.lines)| && old(file.lines)[pos] == line)
    ensures if inserted then OneMore(file, pos, line) && file.numEdits == old(file.numEdits) + 1 else unchanged(file)
  {
    inserted := InsertLineAtLocation(file, line, location, null, false, preserve, false, pos, 0);
    next := MoveOn(file, location, pos);
  }

  /** A line that is not skipped: put behind the location unless it follows already. */
  method InsertLine(file: LineFile, line: string, d: Insertion, begin: Item?, end: Item?, location: Item?,
                    ghost s: Spot, ghost b: Option<nat>)
    returns (next: Item?, inserted: bool)
    requires file.Valid() && Stands(file.nodes, file.lines, begin, end, location, s, b) && !Skipped(s, d, b, line)
    modifies file, file.nodes`next
    ensures file.Valid() && Stands(file.nodes, file.lines, begin, end, next, Put(s, d, b, line), b)
    ensures inserted <==> !Follows(s, d, line)
    ensures if inserted then OneMore(file, s.pos, line) && file.numEdits == old(file.numEdits) + 1
            else unchanged(file)
  {
    ghost var nodes := file.nodes;
    inserted, next := InsertBehind(file, line, location, d.source == PreserveBlock, s.pos);
  }

  /** One turn of the loop over the lines of the chunk. */
  method InsertPiece(file: LineFile, line: string, d: Insertion, begin: Item?, end: Item?, location: Item?,
                     ghost s: Spot, ghost b: Option<nat>)
    returns (next: Item?, inserted: bool)
    requires file.Valid() && Stands(file.nodes, file.lines, begin, end, location, s, b)
    modifies file, file.nodes`next
    ensures file.Valid() && Stands(file.nodes, file.lines, begin, end, next, Put(s, d, b, line), b)
    ensures forall k | 0 <= k < |file.nodes| :: file.nodes[k] in old(file.nodes) || fresh(file.nodes[k])
    ensures |file.lines| == |old(file.lines)| + if inserted then 1 else 0
    ensures file.numEdits == old(file.numEdits) + if inserted then 1 else 0
  {
    next, inserted := location, false;
    if !d.selects(line) {
      return;
    }
    if d.source == Literal {
      var found := IsItemInRegion(file, line, begin, end, if b.Some? then b.value else |file.nodes|,
                                  if b.Some? then s.end else |file.nodes|);
      if found {
        return;
      }
    }
    next, inserted := InsertLine(file, line, d, begin, end, location, s, b);
  }

  /** The next line of the chunk. */
  method InsertNext(file: LineFile, d: Insertion, begin: Item?, end: Item?, location: Item?, sp: nat, ghost s: Spot,
                    ghost b: Option<nat>)
    returns (next: Item?, inserted: bool, after: nat, ghost r: Spot)
    requires file.Valid() && Stands(file.nodes, file.lines, begin, end, location, s, b) && sp <= |d.chunk|
    modifies file, file.nodes`next
    ensures file.Valid() && Stands(file.nodes, file.lines, begin, end, next, r, b) && sp < after
    ensures PutAll(r, d, b, PiecesFrom(d.chunk, after)) == PutAll(s, d, b, PiecesFrom(d.chunk, sp))
    ensures forall k | 0 <= k < |file.nodes| :: file.nodes[k] in old(file.nodes) || fresh(file.nodes[k])
    ensures |file.lines| == |old(file.lines)| + if inserted then 1 else 0
    ensures file.numEdits == old(file.numEdits) + if inserted then 1 else 0
  {
    var buf := Buffered(LineAt(d.chunk, sp));
    r := Put(s, d, b, buf);
    next, inserted := InsertPiece(file, buf, d, begin, end, location, s, b);
    after := sp + |buf| + 1;
  }

  /** The loop over the lines of the chunk. */
  method InsertPieces(file: LineFile, d: Insertion, begin: Item?, end: Item?, locationAtStart: Item?, ghost at: Spot,
                      ghost b: Option<nat>)
    returns (inserts: nat)
    requires file.Valid() && Stands(file.nodes, file.lines, begin, end, locationAtStart, at, b)
    modifies file, file.nodes`next
    ensures file.Valid() && file.lines == PutAll(at, d, b, Pieces(d.chunk)).lines
    ensures end == At(file.nodes, PutAll(at, d, b, Pieces(d.chunk)).end)
    ensures |file.lines| == |old(file.lines)| + inserts && file.numEdits == old(file.numEdits) + inserts
  {
    var location, sp := locationAtStart, 0;
    ghost var s := at;
    inserts := 0;
    while sp <= |d.chunk|
      invariant file.Valid() && Stands(file.nodes, file.lines, begin, end, location, s, b)
      invariant forall k | 0 <= k < |file.nodes| :: file.nodes[k] in old(file.nodes) || fresh(file.nodes[k])
      invariant PutAll(s, d, b, PiecesFrom(d.chunk, sp)) == PutAll(at, d, b, Pieces(d.chunk))
      invariant |file.lines| == |old(file.lines)| + inserts && file.numEdits == old(file.numEdits) + inserts
      decreases |d.chunk| + 1 - sp
    {
      ghost var before := file.nodes;
      var inserted;
      location, inserted, sp, s := InsertNext(file, d, begin, end, location, sp, s, b);
      forall k | 0 <= k < |file.nodes| ensures file.nodes[k] in old(file.nodes) || fresh(file.nodes[k]) {
        assert file.nodes[k] in before ==> exists j :: 0 <= j < |before| && before[j] == file.nodes[k];
      }
      inserts := if inserted then inserts + 1 else inserts;
    }
  }

  /** Behind the location, unless the chunk stands from there on: the lines are put one after the other. */
  method InsertCompoundLineAtLocation(file: LineFile, d: Insertion, begin: Item?, end: Item?, location: Item?,
                                      ghost at: Spot, ghost b: Option<nat>)
    returns (retval: bool, ghost r: Spot)
    requires file.Valid() && Stands(file.nodes, file.lines, begin, end, location, at, b)
    modifies file, file.nodes`next
    ensures file.Valid() && file.lines == r.lines && end == At(file.nodes, r.end)
    ensures r == if d.source != PreserveAllLines && at.pos > 0 && StandsAt(at.lines, Compared(d.chunk), at.pos - 1)
                 then at else PutAll(at, d, b, Pieces(d.chunk))
    ensures |file.lines| >= |old(file.lines)| && (retval <==> |file.lines| > |old(file.lines)|)
    ensures file.numEdits == old(file.numEdits) + |file.lines| - |old(file.lines)|
  {
    if d.source != PreserveAllLines {
      assert file.lines[..|file.lines|] == file.lines;
      var stands := ChunkStandsHere(file, d.chunk, location, null, if at.pos == 0 then 0 else at.pos - 1, |file.nodes|);
      if stands {
        return false, at;
      }
    }
    var inserts := InsertPieces(file, d, begin, end, location, at, b);
    retval, r := inserts > 0, PutAll(at, d, b, Pieces(d.chunk));
  }

  /** MatchRegion without regular expressions, from line i to the end of the region. */
  method ChunkStandsHere(file: LineFile, chunk: string, ip: Item?, end: Item?, ghost i: nat, ghost e: nat)
    returns (stands: bool)
    requires file.Valid() && i <= e <= |file.nodes| && ip == At(file.nodes, i) && end == At(file.nodes, e)
    ensures stands <==> StandsAt(file.lines[..e], Compared(chunk), i)
  {
    var count := MatchRegion(chunk, ip, end, EXACTLY, file.start, file.nodes, file.lines, i, e);
    return count > 0;
  }

  /** The loop over the lines up to the end of the region: where the chunk is looked for. */
  method FindChunkOrEnd(file: LineFile, d: Insertion, end: Item?, ghost e: nat) returns (kept: bool, last: Item?)
    requires file.Valid() && 0 < e <= |file.nodes| && end == At(file.nodes, e)
    ensures kept <==> d.source != PreserveAllLines && Holds(file.lines[..e], Compared(d.chunk))
    ensures !kept ==> last == file.nodes[e - 1]
  {
    ChainNodesAreDistinct(file.start, file.nodes);
    var ip := file.start;
    ghost var i := 0;
    while ip != null
      invariant i < e && ip == At(file.nodes, i)
      invariant d.source != PreserveAllLines ==>
                  forall j | 0 <= j < i :: !StandsAt(file.lines[..e], Compared(d.chunk), j)
      decreases e - i
    {
      if d.source != PreserveAllLines {
        var stands := ChunkStandsHere(file, d.chunk, ip, end, i, e);
        if stands {
          return true, ip;
        }
      }
      if (ip.next != null && ip.next == end) || ip.next == null {
        return false, ip;
      }
      ip, i := ip.next, i + 1;
    }
    return false, ip;
  }

  /** InsertMultipleLinesToRegion: nothing if the chunk stands before the end of the region already. */
  method InsertMultipleLinesToRegion(file: LineFile, d: Insertion, begin: Item?, end: Item?, ghost b: Option<nat>,
                                     ghost e: nat)
    returns (retval: bool, ghost r: Spot)
    requires file.Valid() && Apt(Spot(file.lines, e, e), b) && end == At(file.nodes, e)
    requires begin == if b.Some? then file.nodes[b.value] else null
    modifies file, file.nodes`next
    ensures file.Valid() && r == After(old(file.lines), d, b, e) && file.lines == r.lines
    ensures end == At(file.nodes, r.end)
    ensures retval <==> |file.lines| > |old(file.lines)|
    ensures file.numEdits == old(file.numEdits) + |file.lines| - |old(file.lines)|
  {
    ghost var at := Spot(file.lines, e, e);
    var ip: Item? := null;
    if file.start != null {
      var kept;
      kept, ip := FindChunkOrEnd(file, d, end, e);
      if kept {
        return false, at;
      }
    }
    retval, r := InsertCompoundLineAtLocation(file, d, begin, end, ip, at, b);
  }
}
