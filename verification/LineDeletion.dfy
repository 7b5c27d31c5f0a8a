// Deleting lines of a file in place, after files_editline.c. The regular expression engine and the
// line selection are parameters.
module LineDeletion {
  import opened Chunks
  import opened ItemLists

  // ---------------------------------------------------------------- what is deleted

  /** The lines a promised chunk is compared as and how they are looked for. */
  datatype Deletion = Deletion(lines: seq<string>, notMatching: bool, includeStart: bool, includeEnd: bool,
                               warn: bool, matches: (string, string) -> bool, selects: string -> bool)

  /** How many lines of the region match the chunk from its start on: all lines of the chunk or none. */
  function MatchCount(lines: seq<string>, region: seq<string>, matches: (string, string) -> bool): (m: nat)
    ensures m <= |region|
  {
    if |lines| <= |region| && forall k | 0 <= k < |lines| :: matches(lines[k], region[k]) then |lines| else 0
  }

  function ToDelete(d: Deletion, region: seq<string>): (m: nat)
    requires region != []
    ensures m <= |region|
  {
    var m := MatchCount(d.lines, region, d.matches);
    if !d.selects(region[0]) then 0 else if d.notMatching then (if m == 0 then 1 else 0) else m
  }

  /** The region after the deletion. */
  function Kept(d: Deletion, region: seq<string>): (kept: seq<string>)
    ensures |kept| <= |region|
  {
    if region == [] then []
    else
      var m := ToDelete(d, region);
      if m > 0 then Kept(d, region[m..]) else [region[0]] + Kept(d, region[1..])
  }

  ghost function After(d: Deletion, names: seq<string>, from: nat, to: nat): seq<string>
    requires from <= to <= |names|
  {
    names[..from] + (if d.warn then names[from..to] else Kept(d, names[from..to])) + names[to..]
  }

  /** Position to is where a walk from position from meets the terminator or the end of the list. */
  ghost predicate StopsAt(nodes: seq<Item>, from: nat, terminator: Item?, to: nat) {
    && from <= to <= |nodes|
    && (terminator == At(nodes, to) || (to == |nodes| && forall j | from <= j < |nodes| :: nodes[j] != terminator))
  }

  lemma PassingALine(d: Deletion, names: seq<string>, at: nat, to: nat)
    requires at < to <= |names| && (d.warn || ToDelete(d, names[at..to]) == 0)
    ensures After(d, names, at, to) == After(d, names, at + 1, to)
  {
    if d.warn {
      assert After(d, names, at, to) == names == After(d, names, at + 1, to);
    } else {
      var rest := Kept(d, names[at + 1..to]);
      assert names[at..to][1..] == names[at + 1..to];
      assert names[..at + 1] == names[..at] + [names[at]];
      assert names[..at] + ([names[at]] + rest) + names[to..] == (names[..at] + [names[at]]) + rest + names[to..];
    }
  }

  lemma DroppingLines(d: Deletion, names: seq<string>, at: nat, to: nat, m: nat, less: seq<string>)
    requires at < to <= |names| && !d.warn && ToDelete(d, names[at..to]) == m > 0
    requires less == Without(names, at, m)
    ensures After(d, names, at, to) == After(d, less, at, to - m)
  {
    assert less[..at] == names[..at];
    assert less[at..to - m] == names[at..to][m..];
    assert less[to - m..] == names[to..];
  }

  lemma WithoutIsFromIt<T>(s: seq<T>, at: nat, n: nat)
    requires at + n <= |s|
    ensures forall k | 0 <= k < |s| - n :: Without(s, at, n)[k] in s
  {
  }

  lemma StopsAfterALine(nodes: seq<Item>, at: nat, terminator: Item?, to: nat)
    requires StopsAt(nodes, at, terminator, to) && at < to
    ensures StopsAt(nodes, at + 1, terminator, to)
  {
  }

  lemma StopsAfterADeletion(nodes: seq<Item>, at: nat, terminator: Item?, to: nat, m: nat, less: seq<Item>)
    requires StopsAt(nodes, at, terminator, to) && at + m <= to
    requires less == Without(nodes, at, m)
    ensures StopsAt(less, at, terminator, to - m)
  {
    assert terminator == At(nodes, to) ==> terminator == At(less, to - m);
    forall j | at <= j < |less| ensures less[j] == nodes[j + m] {
    }
  }

  /** s without the n elements at position at. */
  ghost function Without<T>(s: seq<T>, at: nat, n: nat): (r: seq<T>)
    requires at + n <= |s|
    ensures |r| == |s| - n
    ensures forall k | 0 <= k < |r| :: r[k] == s[if k < at then k else k + n]
  {
    s[..at] + s[at + n..]
  }

  lemma OneMoreWithout<T>(s: seq<T>, at: nat, n: nat)
    requires at + n < |s|
    ensures Without(Without(s, at, n), at, 1) == Without(s, at, n + 1)
  {
  }

  lemma NothingLeft(d: Deletion, names: seq<string>, at: nat)
    requires at <= |names|
    ensures After(d, names, at, at) == names
  {
    assert names[at..at] == [];
  }

  // ---------------------------------------------------------------- MatchRegion

  lemma MismatchIn(lines: seq<string>, names: seq<string>, matches: (string, string) -> bool, from: nat, to: nat,
                   k: nat)
    requires from <= to <= |names| && k < |lines|
    requires from + k >= to || !matches(lines[k], names[from + k])
    ensures MatchCount(lines, names[from..to], matches) == 0
  {
    assert from + k < to ==> names[from..to][k] == names[from + k];
  }

  lemma AllMatchIn(lines: seq<string>, names: seq<string>, matches: (string, string) -> bool, from: nat, to: nat)
    requires from <= to <= |names| && from + |lines| <= to
    requires forall k | 0 <= k < |lines| :: matches(lines[k], names[from + k])
    ensures MatchCount(lines, names[from..to], matches) == |lines|
  {
    assert forall k | 0 <= k < |lines| :: names[from..to][k] == names[from + k];
  }

  ghost predicate Named(nodes: seq<Item>, names: seq<string>)
    reads nodes`name
  {
    |nodes| == |names| && forall i {:trigger names[i]} | 0 <= i < |nodes| :: names[i] == nodes[i].name
  }

  /**
   * MatchRegion; ip->name is compared as the caller asks. The chunk matches only if all the lines it
   * is compared as come before the end of the region.
   */
  method MatchRegion(chunk: string, begin: Item?, end: Item?, matches: (string, string) -> bool,
                     ghost start: Item?, ghost nodes: seq<Item>, ghost names: seq<string>,
                     ghost from: nat, ghost to: nat)
    returns (count: nat)
    requires Chain(start, nodes) && Named(nodes, names)
    requires begin == At(nodes, from) && StopsAt(nodes, from, end, to)
    ensures count == MatchCount(Compared(chunk), names[from..to], matches)
  {
    ChainNodesAreDistinct(start, nodes);
    ghost var lines := Compared(chunk);
    var ip := begin;
    var sp, buf := 0, "";
    count := 0;
    while sp <= |chunk|
      invariant count <= |lines| && lines[count..] == ComparedFrom(chunk, sp, buf)
      invariant from + count <= to && ip == At(nodes, from + count)
      invariant forall k | 0 <= k < count :: matches(lines[k], names[from + k])
      decreases |chunk| + 1 - sp
    {
      buf := Reread(chunk, sp, buf);
      sp := sp + |buf|;
      assert lines[count..][0] == buf && lines[count..][1..] == lines[count + 1..];
      if ip == null || !matches(buf, ip.name) || ip == end {
        MismatchIn(lines, names, matches, from, to, count);
        return 0;
      }
      count := count + 1;
      sp := sp + 1;
      if ip.next != null {
        ip := ip.next;
      } else {
        if sp <= |chunk| {
          MismatchIn(lines, names, matches, from, to, count);
          return 0;
        }
        break;
      }
    }
    AllMatchIn(lines, names, matches, from, to);
  }

  // ---------------------------------------------------------------- deleting in place

  /** The lines of the file under edit and the count of edits. */
  class LineFile {
    var start: Item?
    var numEdits: nat
    ghost var nodes: seq<Item>

    ghost var lines: seq<string>

    ghost predicate Valid()
      reads this, nodes`next, nodes`name
    {
      Chain(start, nodes) && Named(nodes, lines)
    }

    constructor ()
      ensures Valid() && lines == [] && numEdits == 0
    {
      start, numEdits, nodes, lines := null, 0, [], [];
    }

    method LineBefore(first: Item, ip: Item, ghost at: nat, ghost from: nat) returns (lp: Item)
      requires Valid() && from < at < |nodes| && ip == nodes[at] && first == nodes[from]
      ensures lp == nodes[at - 1]
    {
      ChainNodesAreDistinct(start, nodes);
      lp := first;
      ghost var j := from;
      while lp.next != ip
        invariant j < at && lp == nodes[j]
        decreases at - j
      {
        lp, j := lp.next, j + 1;
      }
    }

    /** Takes one line out; first is where the search for its predecessor starts next time. */
    method UnlinkLine(ip: Item, initiator: Item?, ghost at: nat, ghost from: nat)
      returns (np: Item?, first: Item?, ghost next: nat)
      requires Valid() && at < |nodes| && ip == nodes[at] && from <= at && initiator == nodes[from]
      modifies this, nodes`next
      ensures Valid() && nodes == Without(old(nodes), at, 1)
      ensures lines == Without(old(lines), at, 1)
      ensures np == At(nodes, at) && next <= at && first == At(nodes, next)
      ensures numEdits == old(numEdits) + 1
    {
      ChainNodesAreDistinct(start, nodes);
      np, first, next := ip.next, initiator, from;
      if ip == start {
        if initiator == start {
          first := np;
        }
        UnlinkFirst(ip);
      } else {
        if ip == initiator {
          first, next := start, 0;
        }
        var lp := LineBefore(first, ip, at, next);
        UnlinkAfter(lp, ip, at);
      }
      numEdits := numEdits + 1;
    }

    method UnlinkFirst(ip: Item)
      requires Valid() && nodes != [] && ip == start
      modifies this`start, this`nodes, this`lines
      ensures Valid() && nodes == Without(old(nodes), 0, 1) && lines == Without(old(lines), 0, 1)
    {
      start := ip.next;
      nodes, lines := Without(nodes, 0, 1), Without(lines, 0, 1);
    }

    method UnlinkAfter(lp: Item, ip: Item, ghost at: nat)
      requires Valid() && 0 < at < |nodes| && lp == nodes[at - 1] && ip == nodes[at]
      modifies lp`next, this`nodes, this`lines
      ensures Valid() && nodes == Without(old(nodes), at, 1) && lines == Without(old(lines), at, 1)
    {
      ChainNodesAreDistinct(start, nodes);
      lp.next := ip.next;
      nodes, lines := Without(nodes, at, 1), Without(lines, at, 1);
    }

    /** The loop over the lines of one match. */
    method DeleteLines(matches: nat, line: Item, initiator: Item?, ghost at: nat, ghost from: nat)
      returns (np: Item?, first: Item?, ghost next: nat)
      requires Valid() && 0 < matches && at + matches <= |nodes| && line == nodes[at]
      requires from <= at && initiator == nodes[from]
      modifies this, nodes`next
      ensures Valid() && nodes == Without(old(nodes), at, matches)
      ensures lines == Without(old(lines), at, matches)
      ensures np == At(nodes, at) && next <= at && first == At(nodes, next)
      ensures numEdits == old(numEdits) + matches
    {
      var ip: Item? := line;
      first, next := initiator, from;
      np := line;
      ghost var all := nodes;
      for i := 0 to matches
        invariant Valid() && nodes == Without(all, at, i)
        invariant lines == Without(old(lines), at, i)
        invariant np == ip == At(nodes, at) && next <= at && first == At(nodes, next)
        invariant numEdits == old(numEdits) + i
        modifies this, all`next
      {
        OneMoreWithout(all, at, i);
        OneMoreWithout(old(lines), at, i);
        np, first, next := UnlinkLine(ip, first, at, next);
        ip := np;
      }
    }

    /**
     * DeletePromisedLinesMatching: of the region the lines Kept stay, in place and in order, and
     * everything outside stays as it was. An end that is met before the region starts is no end.
     */
    method DeletePromisedLinesMatching(begin: Item?, end: Item?, chunk: string, d: Deletion, ghost b: nat, ghost e: nat)
      returns (retval: bool, ghost from: nat, ghost to: nat)
      requires Valid() && d.lines == Compared(chunk)
      requires begin != null ==> b < |nodes| && begin == nodes[b]
      requires end != null ==> e < |nodes| && end == nodes[e]
      modifies this, nodes`next
      ensures Valid()
      ensures from == if begin == null then 0 else if d.includeStart then b else b + 1
      ensures var t := if end == null then |old(nodes)| else if d.includeEnd then e + 1 else e;
              to == if t < from then |old(nodes)| else t
      ensures lines == After(d, old(lines), from, to)
      ensures retval <==> |lines| < |old(lines)|
      ensures numEdits == old(numEdits) + |old(lines)| - |lines|
    {
      var initiator, terminator := begin, end;
      if begin == null {
        initiator, from := start, 0;
      } else if d.includeStart {
        from := b;
      } else {
        initiator, from := begin.next, b + 1;
      }
      to := if end == null then |nodes| else if d.includeEnd then e + 1 else e;
      if end != null && d.includeEnd {
        terminator := end.next;
      }
      ChainNodesAreDistinct(start, nodes);
      if to < from {
        to := |nodes|;
      }
      ghost var names := lines;
      ghost var at, first, stop := from, from, to;
      var ip := initiator;
      retval := false;
      while ip != terminator && ip != null
        invariant Valid() && ip == At(nodes, at) && StopsAt(nodes, at, terminator, stop)
        invariant first <= at && initiator == At(nodes, first)
        invariant forall k | 0 <= k < |nodes| :: nodes[k] in old(nodes)
        invariant After(d, lines, at, stop) == After(d, names, from, to)
        invariant |lines| <= |names| && numEdits == old(numEdits) + |names| - |lines|
        invariant retval <==> |lines| < |names|
        decreases stop - at
      {
        var deleted;
        ip, initiator, deleted, at, first, stop := EditLine(ip, terminator, initiator, chunk, d, at, first, stop);
        retval := retval || deleted;
      }
      DoneAtTheStop(ip, terminator, at, stop);
      NothingLeft(d, lines, at);
    }

    // When the walk ends it has reached the stop.
    lemma DoneAtTheStop(ip: Item?, terminator: Item?, at: nat, stop: nat)
      requires Valid() && ip == At(nodes, at) && StopsAt(nodes, at, terminator, stop)
      requires ip == terminator || ip == null
      ensures at == stop
    {
      ChainNodesAreDistinct(start, nodes);
    }

    /** One turn of the deletion loop. */
    method EditLine(line: Item, terminator: Item?, initiator: Item?, chunk: string, d: Deletion, ghost at: nat,
                    ghost from: nat, ghost to: nat)
      returns (np: Item?, first: Item?, deleted: bool, ghost next: nat, ghost begin: nat, ghost stop: nat)
      requires Valid() && d.lines == Compared(chunk) && line == At(nodes, at) && line != terminator
      requires StopsAt(nodes, at, terminator, to) && from <= at && initiator == At(nodes, from)
      modifies this, nodes`next
      ensures Valid() && np == At(nodes, next) && StopsAt(nodes, next, terminator, stop)
      ensures begin <= next && first == At(nodes, begin)
      ensures forall k | 0 <= k < |nodes| :: nodes[k] in old(nodes)
      ensures After(d, lines, next, stop) == After(d, old(lines), at, to)
      ensures |lines| <= |old(lines)| && numEdits == old(numEdits) + |old(lines)| - |lines|
      ensures deleted <==> |lines| < |old(lines)|
      ensures stop - next < to - at
    {
      np, first, deleted, next, begin, stop := line.next, initiator, false, at + 1, from, to;
      StopsAfterALine(nodes, at, terminator, to);
      var matches := LinesToDelete(line, terminator, chunk, d, at, to);
      if matches == 0 || d.warn {
        PassingALine(d, lines, at, to);
        return;
      }
      np, first, begin := DeleteMatch(matches, line, terminator, initiator, d, at, from, to);
      deleted, next, stop := true, at, to - matches;
    }

    method LinesToDelete(line: Item, terminator: Item?, chunk: string, d: Deletion, ghost at: nat, ghost to: nat)
      returns (matches: nat)
      requires Valid() && d.lines == Compared(chunk) && line == At(nodes, at) && at < to
      requires StopsAt(nodes, at, terminator, to)
      ensures matches == ToDelete(d, lines[at..to])
    {
      assert lines[at..to][0] == line.name;
      matches := MatchRegion(chunk, line, terminator, d.matches, start, nodes, lines, at, to);
      if d.notMatching {
        matches := if matches == 0 then 1 else 0;
      }
      if !d.selects(line.name) {
        matches := 0;
      }
    }

    method DeleteMatch(matches: nat, line: Item, ghost terminator: Item?, initiator: Item?, ghost d: Deletion,
                       ghost at: nat, ghost from: nat, ghost to: nat)
      returns (np: Item?, first: Item?, ghost begin: nat)
      requires Valid() && at < to && line == At(nodes, at) && !d.warn
      requires StopsAt(nodes, at, terminator, to) && from <= at && initiator == At(nodes, from)
      requires matches > 0 && ToDelete(d, lines[at..to]) == matches
      modifies this, nodes`next
      ensures Valid() && np == At(nodes, at) && StopsAt(nodes, at, terminator, to - matches)
      ensures begin <= at && first == At(nodes, begin)
      ensures forall k | 0 <= k < |nodes| :: nodes[k] in old(nodes)
      ensures After(d, lines, at, to - matches) == After(d, old(lines), at, to)
      ensures |lines| == |old(lines)| - matches && numEdits == old(numEdits) + matches
    {
      ghost var all, names := nodes, lines;
      np, first, begin := DeleteLines(matches, line, initiator, at, from);
      DroppingLines(d, names, at, to, matches, lines);
      WithoutIsFromIt(all, at, matches);
      StopsAfterADeletion(all, at, terminator, to, matches, nodes);
    }
  }

  // ---------------------------------------------------------------- the deletion in words

  /** All lines of the chunk match from position p of the region on. */
  predicate ChunkAt(d: Deletion, region: seq<string>, p: nat)
    requires p < |region|
  {
    p + |d.lines| <= |region| && forall k | 0 <= k < |d.lines| :: d.matches(d.lines[k], region[p + k])
  }

  /** The line at p is selected, and the chunk matches there, or does not, as asked. */
  predicate GoesAt(d: Deletion, region: seq<string>, p: nat)
    requires p < |region|
  {
    d.selects(region[p]) && ChunkAt(d, region, p) != d.notMatching
  }

  lemma GoesAtTheFirst(d: Deletion, region: seq<string>)
    requires d.lines != [] && region != []
    ensures ToDelete(d, region) == if !GoesAt(d, region, 0) then 0 else if d.notMatching then 1 else |d.lines|
  {
    var m := MatchCount(d.lines, region, d.matches);
    assert m > 0 <==> ChunkAt(d, region, 0);
  }

  lemma GoesAtTheRest(d: Deletion, region: seq<string>, p: nat)
    requires p < |region|
    ensures GoesAt(d, region[p..], 0) <==> GoesAt(d, region, p)
  {
    var rest := region[p..];
    if ChunkAt(d, region, p) {
      forall k | 0 <= k < |d.lines| ensures d.matches(d.lines[k], rest[0 + k]) {
        assert d.matches(d.lines[k], region[p + k]);
      }
    }
    if ChunkAt(d, rest, 0) {
      forall k | 0 <= k < |d.lines| ensures d.matches(d.lines[k], region[p + k]) {
        assert d.matches(d.lines[k], rest[0 + k]);
      }
    }
  }

  ghost predicate NothingGoesBefore(d: Deletion, region: seq<string>, p: nat)
    requires p <= |region|
  {
    forall q: nat | q < p :: !GoesAt(d, region, q)
  }

  lemma TheLineStays(d: Deletion, region: seq<string>, p: nat)
    requires d.lines != [] && p < |region| && !GoesAt(d, region, p)
    ensures Kept(d, region[p..]) == [region[p]] + Kept(d, region[p + 1..])
  {
    GoesAtTheRest(d, region, p);
    GoesAtTheFirst(d, region[p..]);
    assert region[p..][1..] == region[p + 1..];
  }

  lemma OneMoreInFront(region: seq<string>, p: nat, kept: seq<string>)
    requires p < |region|
    ensures region[..p] + ([region[p]] + kept) == region[..p + 1] + kept
  {
  }

  /** Lines in front of the first position where lines go stay. */
  lemma {:induction false} TheFrontStays(d: Deletion, region: seq<string>, p: nat)
    requires d.lines != [] && p <= |region| && NothingGoesBefore(d, region, p)
    ensures Kept(d, region) == region[..p] + Kept(d, region[p..])
  {
    if p == 0 {
      assert region[0..] == region;
    } else {
      TheFrontStays(d, region, p - 1);
      TheLineStays(d, region, p - 1);
      OneMoreInFront(region, p - 1, Kept(d, region[p..]));
    }
  }

  /**
   * The first position where lines go: as many go as the chunk has, or one where what does not match
   * goes; the lines in front of it stay, and the deletion goes on behind them.
   */
  lemma TheFirstMatchGoes(d: Deletion, region: seq<string>, p: nat, m: nat)
    requires d.lines != [] && p < |region| && GoesAt(d, region, p) && NothingGoesBefore(d, region, p)
    requires m == if d.notMatching then 1 else |d.lines|
    ensures p + m <= |region| && Kept(d, region) == region[..p] + Kept(d, region[p + m..])
  {
    TheFrontStays(d, region, p);
    GoesAtTheRest(d, region, p);
    GoesAtTheFirst(d, region[p..]);
    assert region[p..][m..] == region[p + m..];
  }

  /** Where no lines go, the region stays. */
  lemma WithoutAMatchNothingGoes(d: Deletion, region: seq<string>)
    requires d.lines != [] && NothingGoesBefore(d, region, |region|)
    ensures Kept(d, region) == region
  {
    TheFrontStays(d, region, |region|);
    assert region[..|region|] + [] == region;
  }

  // ---------------------------------------------------------------- promisers of one line

  /** With a promiser of one line: the line goes if it is selected and matches, or does not, as asked. */
  predicate Goes(d: Deletion, line: string)
    requires |d.lines| == 1
  {
    d.selects(line) && d.matches(d.lines[0], line) != d.notMatching
  }

  function Filtered(d: Deletion, region: seq<string>): (kept: seq<string>)
    requires |d.lines| == 1
    ensures forall k | 0 <= k < |kept| :: !Goes(d, kept[k])
  {
    if region == [] then []
    else (if Goes(d, region[0]) then [] else [region[0]]) + Filtered(d, region[1..])
  }

  lemma OneLineToDelete(d: Deletion, region: seq<string>)
    requires |d.lines| == 1 && region != []
    ensures ToDelete(d, region) == if Goes(d, region[0]) then 1 else 0
  {
  }

  /** For a promiser of one line the deletion filters the region. */
  lemma {:induction false} OneLineDeletionFilters(d: Deletion, region: seq<string>)
    requires |d.lines| == 1
    ensures Kept(d, region) == Filtered(d, region)
  {
    if region != [] {
      OneLineToDelete(d, region);
      OneLineDeletionFilters(d, region[1..]);
    }
  }

  /** Of a line that goes no copy stays, of any other one all do. */
  lemma {:induction false} OneLineDeletionCounts(d: Deletion, region: seq<string>, line: string)
    requires |d.lines| == 1
    ensures multiset(Kept(d, region))[line]
         == if d.selects(line) && d.matches(d.lines[0], line) != d.notMatching then 0 else multiset(region)[line]
  {
    if region != [] {
      OneLineToDelete(d, region);
      OneLineDeletionCounts(d, region[1..], line);
      assert region == [region[0]] + region[1..];
    }
  }

  lemma {:induction false} NothingToFilter(d: Deletion, region: seq<string>)
    requires |d.lines| == 1 && forall k | 0 <= k < |region| :: !Goes(d, region[k])
    ensures Filtered(d, region) == region
  {
    if region != [] {
      NothingToFilter(d, region[1..]);
    }
  }

  /** A second run over what a one-line deletion left deletes nothing. */
  lemma OneLineDeletionConverges(d: Deletion, region: seq<string>)
    requires |d.lines| == 1
    ensures Kept(d, Kept(d, region)) == Kept(d, region)
  {
    OneLineDeletionFilters(d, region);
    OneLineDeletionFilters(d, Filtered(d, region));
    NothingToFilter(d, Filtered(d, region));
  }

  lemma {:induction false} FilteringConcatenations(d: Deletion, a: seq<string>, b: seq<string>)
    requires |d.lines| == 1
    ensures Filtered(d, a + b) == Filtered(d, a) + Filtered(d, b)
  {
    if a == [] {
      assert a + b == b;
    } else {
      assert (a + b)[1..] == a[1..] + b;
      FilteringConcatenations(d, a[1..], b);
    }
  }

  /** Deleting the lines of a file region by region is deleting them from the whole file. */
  lemma OneLineDeletionByRegions(d: Deletion, a: seq<string>, b: seq<string>)
    requires |d.lines| == 1
    ensures Kept(d, a + b) == Kept(d, a) + Kept(d, b)
  {
    OneLineDeletionFilters(d, a + b);
    OneLineDeletionFilters(d, a);
    OneLineDeletionFilters(d, b);
    FilteringConcatenations(d, a, b);
  }

  // ---------------------------------------------------------------- which deletions converge

  /** Lines without wildcards are compared as they are. */
  ghost predicate Exact(d: Deletion) {
    forall line, name :: d.matches(line, name) <==> line == name
  }

  /** A second run deletes nothing. */
  predicate Settles(d: Deletion, region: seq<string>) {
    Kept(d, Kept(d, region)) == Kept(d, region)
  }

  ghost predicate Converges(d: Deletion) {
    forall region :: Settles(d, region)
  }

  lemma MatchesTheWholeChunk(d: Deletion, rest: seq<string>)
    requires d.lines != [] && Exact(d)
    ensures MatchCount(d.lines, d.lines + rest, d.matches) == |d.lines|
  {
    assert forall k | 0 <= k < |d.lines| :: (d.lines + rest)[k] == d.lines[k];
  }

  lemma {:induction false} NothingSelectedStays(d: Deletion, region: seq<string>)
    requires d.lines != [] && Exact(d) && !d.selects(d.lines[0]) && !d.notMatching
    ensures Kept(d, region) == region
  {
    if region != [] {
      NothingSelectedStays(d, region[1..]);
    }
  }

  lemma {:induction false} ShortRegionsStay(d: Deletion, region: seq<string>)
    requires |region| < |d.lines| && !d.notMatching
    ensures Kept(d, region) == region
  {
    if region != [] {
      ShortRegionsStay(d, region[1..]);
    }
  }

  /** A first line in front keeps the chunk from matching, and what is left then is the chunk. */
  lemma LeavesTheChunk(d: Deletion, k: nat)
    requires d.lines != [] && Exact(d) && d.selects(d.lines[0]) && !d.notMatching
    requires k < |d.lines| && d.lines[k] != d.lines[0]
    ensures !Settles(d, [d.lines[0]] + (d.lines + d.lines[1..]))
  {
    var l := d.lines;
    var region := [l[0]] + (l + l[1..]);
    NoMatchInFront(d, k);
    TheChunkGoes(d, l[1..]);
    ShortRegionsStay(d, l[1..]);
    assert Kept(d, region) == l by {
      assert region[1..] == l + l[1..];
    }
    TheChunkGoes(d, []);
    assert l + [] == l;
  }

  lemma NoMatchInFront(d: Deletion, k: nat)
    requires k < |d.lines| && d.lines[k] != d.lines[0] && Exact(d)
    ensures MatchCount(d.lines, [d.lines[0]] + (d.lines + d.lines[1..]), d.matches) == 0
  {
    var l := d.lines;
    SomewhereItChanges(l, k);
    var i :| 0 < i < |l| && l[i] != l[i - 1];
    assert !d.matches(l[i], ([l[0]] + (l + l[1..]))[i]);
  }

  lemma TheChunkGoes(d: Deletion, rest: seq<string>)
    requires d.lines != [] && Exact(d) && d.selects(d.lines[0]) && !d.notMatching
    ensures Kept(d, d.lines + rest) == Kept(d, rest)
  {
    MatchesTheWholeChunk(d, rest);
    assert (d.lines + rest)[|d.lines|..] == rest;
  }

  lemma {:induction false} SomewhereItChanges(lines: seq<string>, k: nat)
    requires k < |lines| && lines[k] != lines[0]
    ensures exists i :: 0 < i < |lines| && lines[i] != lines[i - 1]
  {
    if lines[k - 1] != lines[0] {
      SomewhereItChanges(lines, k - 1);
    }
  }

  // The leading copies of a line.
  function Leading(line: string, region: seq<string>): (n: nat)
    ensures n <= |region| && forall k | 0 <= k < n :: region[k] == line
    ensures n < |region| ==> region[n] != line
  {
    if region == [] || region[0] != line then 0 else 1 + Leading(line, region[1..])
  }

  /** Copies of one line match where as many copies lead. */
  lemma CopiesMatch(d: Deletion, region: seq<string>)
    requires d.lines != [] && Exact(d) && forall k | 0 <= k < |d.lines| :: d.lines[k] == d.lines[0]
    ensures MatchCount(d.lines, region, d.matches) > 0 <==> Leading(d.lines[0], region) >= |d.lines|
  {
    var n := Leading(d.lines[0], region);
    if n < |region| && n < |d.lines| {
      assert !d.matches(d.lines[n], region[n]);
    }
  }

  lemma {:induction false} TooFewCopiesStay(d: Deletion, region: seq<string>)
    requires d.lines != [] && Exact(d) && !d.notMatching
    requires forall k | 0 <= k < |d.lines| :: d.lines[k] == d.lines[0]
    requires Leading(d.lines[0], region) < |d.lines|
    ensures Leading(d.lines[0], Kept(d, region)) == Leading(d.lines[0], region)
  {
    if region != [] {
      CopiesMatch(d, region);
      if region[0] == d.lines[0] {
        TooFewCopiesStay(d, region[1..]);
      }
      assert ([region[0]] + Kept(d, region[1..]))[1..] == Kept(d, region[1..]);
    }
  }

  lemma {:induction false} DeletingCopiesConverges(d: Deletion, region: seq<string>)
    requires d.lines != [] && Exact(d) && !d.notMatching && d.selects(d.lines[0])
    requires forall k | 0 <= k < |d.lines| :: d.lines[k] == d.lines[0]
    ensures Kept(d, Kept(d, region)) == Kept(d, region)
  {
    if region != [] {
      var m := ToDelete(d, region);
      CopiesMatch(d, region);
      if m > 0 {
        DeletingCopiesConverges(d, region[m..]);
      } else {
        var rest := Kept(d, region[1..]);
        DeletingCopiesConverges(d, region[1..]);
        if region[0] == d.lines[0] {
          TooFewCopiesStay(d, region);
        }
        CopiesMatch(d, [region[0]] + rest);
        assert ([region[0]] + rest)[1..] == rest;
      }
    }
  }

  // ---------------------------------------------------------------- deleting what does not match

  lemma {:induction false} ShortRegionsLoseTheirSelectedLines(d: Deletion, region: seq<string>, k: nat)
    requires d.notMatching && k < |region| < |d.lines| && d.selects(region[k])
    ensures |Kept(d, region)| < |region|
  {
    if k > 0 {
      ShortRegionsLoseTheirSelectedLines(d, region[1..], k - 1);
    }
  }

  /** The first line stays while the lines behind it do; then it goes as well. */
  lemma LosesTheFirstLine(d: Deletion, k: nat)
    requires d.lines != [] && Exact(d) && d.notMatching && d.selects(d.lines[0])
    requires 0 < k < |d.lines| && d.selects(d.lines[k])
    ensures !Settles(d, d.lines)
  {
    var l := d.lines;
    var rest := Kept(d, l[1..]);
    MatchesTheWholeChunk(d, []);
    assert l + [] == l;
    ShortRegionsLoseTheirSelectedLines(d, l[1..], k - 1);
    assert Kept(d, l) == [l[0]] + rest;
    ShortRegionsLoseTheirSelectedLines(d, [l[0]] + rest, 0);
  }

  lemma {:induction false} UnselectedLinesStay(d: Deletion, region: seq<string>, n: nat)
    requires n <= |region| && forall k | 0 <= k < n :: !d.selects(region[k])
    ensures n <= |Kept(d, region)| && Kept(d, region)[..n] == region[..n]
  {
    if n > 0 {
      UnselectedLinesStay(d, region[1..], n - 1);
    }
  }

  lemma {:induction false} DeletingTheOthersConverges(d: Deletion, region: seq<string>)
    requires d.lines != [] && Exact(d) && d.notMatching
    requires d.selects(d.lines[0]) ==> forall k | 0 < k < |d.lines| :: !d.selects(d.lines[k])
    ensures Kept(d, Kept(d, region)) == Kept(d, region)
  {
    if region != [] {
      DeletingTheOthersConverges(d, region[1..]);
      var rest := Kept(d, region[1..]);
      if ToDelete(d, region) == 0 {
        if d.selects(region[0]) {
          TheMatchStays(d, region);
        }
        assert ([region[0]] + rest)[1..] == rest;
      }
    }
  }

  lemma TheMatchStays(d: Deletion, region: seq<string>)
    requires d.lines != [] && Exact(d) && d.notMatching && region != [] && d.selects(region[0])
    requires d.selects(d.lines[0]) ==> forall k | 0 < k < |d.lines| :: !d.selects(d.lines[k])
    requires ToDelete(d, region) == 0
    ensures ToDelete(d, [region[0]] + Kept(d, region[1..])) == 0
  {
    var n := |d.lines| - 1;
    assert d.matches(d.lines[0], region[0]);
    forall k | 0 <= k < n ensures region[1..][k] == d.lines[k + 1] {
      assert d.matches(d.lines[k + 1], region[k + 1]);
    }
    UnselectedLinesStay(d, region[1..], n);
    var rest := Kept(d, region[1..]);
    forall k | 0 <= k < |d.lines| ensures d.matches(d.lines[k], ([region[0]] + rest)[k]) {
      if k > 0 {
        assert rest[..n][k - 1] == region[1..][..n][k - 1];
      }
    }
  }

  /**
   * For lines without wildcards: a second run never deletes anything exactly if the first line cannot
   * be selected, or the lines are all the same, or, where what does not match goes, no line behind
   * the first can be selected.
   */
  lemma DeletionConvergesExactly(d: Deletion)
    requires d.lines != [] && Exact(d)
    ensures Converges(d)
       <==> || !d.selects(d.lines[0])
            || forall k | 0 < k < |d.lines| ::
                 if d.notMatching then !d.selects(d.lines[k]) else d.lines[k] == d.lines[0]
  {
    if d.selects(d.lines[0]) {
      if k :| 0 < k < |d.lines| && if d.notMatching then d.selects(d.lines[k]) else d.lines[k] != d.lines[0] {
        if d.notMatching {
          LosesTheFirstLine(d, k);
        } else {
          LeavesTheChunk(d, k);
        }
      } else {
        EveryRegionSettles(d);
      }
    } else {
      EveryRegionSettles(d);
    }
  }

  lemma EveryRegionSettles(d: Deletion)
    requires d.lines != [] && Exact(d)
    requires || !d.selects(d.lines[0])
             || forall k | 0 < k < |d.lines| ::
                  if d.notMatching then !d.selects(d.lines[k]) else d.lines[k] == d.lines[0]
    ensures Converges(d)
  {
    forall region ensures Settles(d, region) {
      if d.notMatching {
        DeletingTheOthersConverges(d, region);
      } else if d.selects(d.lines[0]) {
        DeletingCopiesConverges(d, region);
      } else {
        NothingSelectedStays(d, region);
      }
    }
  }

  /** With two lines it need not converge: what is left can join into a new match. */
  lemma TwoLineDeletionsMayNotConverge(d: Deletion)
    requires d.lines == ["a", "b"] && !d.notMatching
    requires (forall s :: d.selects(s)) && forall s, t :: d.matches(s, t) <==> s == t
    ensures Kept(d, ["a", "a", "b", "b"]) == ["a", "b"]
    ensures Kept(d, ["a", "b"]) == []
  {
    var file := ["a", "a", "b", "b"];
    assert MatchCount(d.lines, file, d.matches) == 0 by {
      assert d.lines[1] == "b" && file[1] == "a";
    }
    assert file[1..] == ["a", "b", "b"];
    assert ToDelete(d, ["a", "b", "b"]) == 2;
    assert ["a", "b", "b"][2..] == ["b"];
    assert Kept(d, ["b"]) == ["b"] + Kept(d, []);
    assert ToDelete(d, ["a", "b"]) == 2;
  }
}
