// Numbering the body segments of a marked-up stream, after uTrans.c: a first pass
// measures how deep the markers nest, a second pass numbers the bodies in a vector
// sized by those measurements.
module SegmentCoordinates {

  datatype Marker = Unknown | Begin | End | Item | Body

  datatype Segment = Segment(kind: Marker, text: string) {
    predicate IsNumbered() {
      kind == Item || kind == Body
    }
  }

  /** What MarkBodyCoords stores for one segment. */
  datatype Tuple = Tuple(coords: seq<int>, delimiter: seq<string>)

  // ---------------------------------------------------------------- nesting depth

  function Climb(kind: Marker): int {
    match kind
    case Begin => 1
    case End => -1
    case Item => 0
    case Body => 0
    case Unknown => 0
  }

  // Begin markers minus end markers among the first k segments. It may be negative: the
  // stream need not be balanced.
  function Level(segments: seq<Segment>, k: nat): int
    requires k <= |segments|
  {
    if k == 0 then 0 else Level(segments, k - 1) + Climb(segments[k - 1].kind)
  }

  ghost predicate LevelsWithin(segments: seq<Segment>, low: int, high: int) {
    forall k: nat | k <= |segments| :: low <= Level(segments, k) <= high
  }

  ghost predicate Attains(segments: seq<Segment>, level: int) {
    exists k: nat :: k <= |segments| && Level(segments, k) == level
  }

  lemma {:induction false} LevelOfLongerStream(segments: seq<Segment>, more: seq<Segment>, k: nat)
    requires k <= |segments|
    ensures Level(segments + more, k) == Level(segments, k)
  {
    if k > 0 {
      LevelOfLongerStream(segments, more, k - 1);
    }
  }

  // ---------------------------------------------------------------- the open regions as a stack

  // One dimension of the vector: how many segments have been counted in it, and the text
  // of the begin marker that opened it.
  datatype Frame = Frame(count: int, opener: string)

  function Counted(frames: seq<Frame>): (r: seq<Frame>)
    requires frames != []
    ensures |r| == |frames|
  {
    var last := |frames| - 1;
    frames[last := frames[last].(count := frames[last].count + 1)]
  }

  function StepFrames(frames: seq<Frame>, segment: Segment): (r: seq<Frame>)
    requires frames != []
    ensures |r| == |frames| + Climb(segment.kind)
  {
    match segment.kind
    case Begin => Counted(frames) + [Frame(0, segment.text)]
    case End => frames[..|frames| - 1]
    case Item => Counted(frames)
    case Body => Counted(frames)
    case Unknown => frames
  }

  // The regions open after k segments, when origin regions count as open from the start.
  ghost function OpenFrames(segments: seq<Segment>, k: nat, origin: nat): (r: seq<Frame>)
    requires k <= |segments|
    requires forall j: nat | j <= k :: 0 <= origin + Level(segments, j)
    ensures |r| == origin + Level(segments, k) + 1
  {
    if k == 0 then seq(origin + 1, _ => Frame(0, ""))
    else StepFrames(OpenFrames(segments, k - 1, origin), segments[k - 1])
  }

  ghost function Padded(frames: seq<Frame>, dimspan: nat): (t: Tuple)
    requires |frames| <= dimspan
  {
    Tuple(seq(dimspan, i requires 0 <= i < dimspan => if i < |frames| then frames[i].count else 0),
          seq(dimspan, i requires 0 <= i < dimspan => if i < |frames| then frames[i].opener else ""))
  }

  // The coordinates of segment i: the open regions just after it was counted.
  ghost function CoordinatesOf(segments: seq<Segment>, i: nat, low: int, high: int): Tuple
    requires LevelsWithin(segments, low, high) && low <= 0 <= high
    requires i < |segments|
  {
    Padded(OpenFrames(segments, i + 1, -low), high - low + 1)
  }

  // ---------------------------------------------------------------- the two passes

  // The two arrays hold the open regions, and nothing beyond them.
  ghost predicate Holds(coords: array<int>, types: array<string>, frames: seq<Frame>)
    reads coords, types
  {
    && |frames| <= coords.Length == types.Length
    && (forall j | 0 <= j < |frames| :: coords[j] == frames[j].count && types[j] == frames[j].opener)
    && (forall j | |frames| <= j < coords.Length :: coords[j] == 0 && types[j] == "")
  }

  // After i segments the arrays hold the regions then open.
  ghost predicate Stands(coords: array<int>, types: array<string>, segments: seq<Segment>, i: nat, low: int, high: int)
    requires LevelsWithin(segments, low, high) && low <= 0 <= high && i <= |segments|
    reads coords, types
  {
    && coords.Length == high - low + 1
    && Holds(coords, types, OpenFrames(segments, i, -low))
  }

  class SpanningTree {
    var segments: seq<Segment>
    var level: int
    var maxp: int
    var maxn: int
    var coordinates: map<nat, Tuple>

    // The first pass has measured exactly the deepest and the shallowest level reached.
    ghost predicate Measured()
      reads this
    {
      && level == Level(segments, |segments|)
      && maxn <= 0 <= maxp
      && LevelsWithin(segments, maxn, maxp)
      && Attains(segments, maxp) && Attains(segments, maxn)
    }

    constructor ()
      ensures segments == [] && coordinates == map[] && Measured()
    {
      segments, level, maxp, maxn, coordinates := [], 0, 0, 0, map[];
      new;
      assert Level(segments, 0) == 0;
    }

    method HandleToken(segment: Segment)
      requires Measured() && segment.kind != Body
      modifies this
      ensures Measured()
      ensures segments == old(segments) + [segment] && coordinates == old(coordinates)
    {
      LevelsAfterAppend(segments, segment);
      segments := segments + [segment];
      match segment.kind {
        case Begin => level := level + 1;
        case End => level := level - 1;
        case Item =>
        case Body =>
        case Unknown =>
      }
      if level > maxp {
        maxp := level;
      }
      if level < maxn {
        maxn := level;
      }
    }

    method HandleBody(segment: Segment)
      requires Measured() && segment.kind == Body
      modifies this
      ensures Measured()
      ensures segments == old(segments) + [segment] && coordinates == old(coordinates)
    {
      LevelsAfterAppend(segments, segment);
      segments := segments + [segment];
    }

    // The coordinates recorded are those of the numbered ones among the first k segments.
    ghost predicate NumberedUpTo(k: nat)
      requires Measured() && k <= |segments|
      reads this
    {
      && coordinates.Keys == (set i: nat | i < k && segments[i].IsNumbered())
      && forall i: nat | i < k && segments[i].IsNumbered() ::
           coordinates[i] == CoordinatesOf(segments, i, maxn, maxp)
    }

    method MarkBodyCoords(currentCoords: array<int>, currentTypes: array<string>, segment: nat)
      requires Measured() && segment < |segments| && segments[segment].IsNumbered()
      requires NumberedUpTo(segment)
      requires Stands(currentCoords, currentTypes, segments, segment + 1, maxn, maxp)
      modifies this`coordinates
      ensures Measured() && NumberedUpTo(segment + 1)
    {
      var tuple := Tuple(currentCoords[..], currentTypes[..]);
      assert tuple == CoordinatesOf(segments, segment, maxn, maxp) by {
        var padded := CoordinatesOf(segments, segment, maxn, maxp);
        assert tuple.coords == padded.coords && tuple.delimiter == padded.delimiter;
      }
      coordinates := coordinates[segment := tuple];
    }

    // The second pass. All array accesses stay inside 0..dimspan-1 whatever the stream.
    method Coordinatize()
      requires Measured() && coordinates == map[]
      modifies this`coordinates
      ensures Measured() && NumberedUpTo(|segments|)
    {
      var dimspan := maxp - maxn + 1;
      var currentCoords := new int[dimspan](_ => 0);
      var currentTypes := new string[dimspan](_ => "");
      NumberSegments(currentCoords, currentTypes);
    }

    method NumberSegments(currentCoords: array<int>, currentTypes: array<string>)
      requires Measured() && coordinates == map[]
      requires Stands(currentCoords, currentTypes, segments, 0, maxn, maxp)
      modifies this`coordinates, currentCoords, currentTypes
      ensures Measured() && NumberedUpTo(|segments|)
    {
      var dimpos := -maxn;
      var i := 0;
      while i < |segments|
        invariant 0 <= i <= |segments| && Measured() && NumberedUpTo(i)
        invariant dimpos == Level(segments, i) - maxn
        invariant Stands(currentCoords, currentTypes, segments, i, maxn, maxp)
      {
        dimpos := NumberSegment(currentCoords, currentTypes, dimpos, i);
        i := i + 1;
      }
    }

    method NumberSegment(currentCoords: array<int>, currentTypes: array<string>, dimpos: nat, i: nat)
      returns (newpos: int)
      requires Measured() && i < |segments| && NumberedUpTo(i)
      requires Stands(currentCoords, currentTypes, segments, i, maxn, maxp) && dimpos == Level(segments, i) - maxn
      modifies this`coordinates, currentCoords, currentTypes
      ensures Measured() && NumberedUpTo(i + 1)
      ensures Stands(currentCoords, currentTypes, segments, i + 1, maxn, maxp) && newpos == Level(segments, i + 1) - maxn
    {
      ghost var frames, next := OpenFrames(segments, i, -maxn), OpenFrames(segments, i + 1, -maxn);
      assert maxn <= Level(segments, i + 1) <= maxp;
      newpos := PassSegment(currentCoords, currentTypes, dimpos, segments[i], frames, next);
      assert Stands(currentCoords, currentTypes, segments, i + 1, maxn, maxp);
      if segments[i].IsNumbered() {
        MarkBodyCoords(currentCoords, currentTypes, i);
      }
    }
  }

  // One segment of the second pass, up to the recording of its coordinates.
  method PassSegment(currentCoords: array<int>, currentTypes: array<string>, dimpos: nat, segment: Segment,
                     ghost frames: seq<Frame>, ghost next: seq<Frame>)
    returns (newpos: int)
    requires frames != [] && Holds(currentCoords, currentTypes, frames) && dimpos == |frames| - 1
    requires next == StepFrames(frames, segment) && |next| <= currentCoords.Length
    modifies currentCoords, currentTypes
    ensures Holds(currentCoords, currentTypes, next)
    ensures newpos == |next| - 1
  {
    newpos := dimpos;
    match segment.kind {
      case Item =>
        currentCoords[dimpos] := currentCoords[dimpos] + 1;
      case Body =>
        currentCoords[dimpos] := currentCoords[dimpos] + 1;
      case Begin =>
        currentCoords[dimpos] := currentCoords[dimpos] + 1;
        newpos := dimpos + 1;
        currentTypes[newpos] := segment.text;
      case End =>
        LeaveRegion(currentCoords, currentTypes, dimpos, frames);
        newpos := dimpos - 1;
      case Unknown =>
    }
  }

  method LeaveRegion(currentCoords: array<int>, currentTypes: array<string>, dimpos: nat, ghost frames: seq<Frame>)
    requires Holds(currentCoords, currentTypes, frames) && dimpos == |frames| - 1
    modifies currentCoords, currentTypes
    ensures Holds(currentCoords, currentTypes, frames[..dimpos])
  {
    var j := dimpos;
    while j < currentCoords.Length
      invariant dimpos <= j <= currentCoords.Length
      invariant forall k | 0 <= k < dimpos :: currentCoords[k] == frames[k].count && currentTypes[k] == frames[k].opener
      invariant forall k | dimpos <= k < j :: currentCoords[k] == 0 && currentTypes[k] == ""
    {
      currentCoords[j] := 0;
      currentTypes[j] := "";
      j := j + 1;
    }
  }

  lemma LevelsAfterAppend(segments: seq<Segment>, segment: Segment)
    ensures var longer := segments + [segment];
            && Level(longer, |longer|) == Level(segments, |segments|) + Climb(segment.kind)
            && (forall k: nat | k <= |segments| :: Level(longer, k) == Level(segments, k))
  {
    forall k: nat | k <= |segments| ensures Level(segments + [segment], k) == Level(segments, k) {
      LevelOfLongerStream(segments, [segment], k);
    }
  }

  /** Both passes over a stream that has already been cut into segments. */
  method ParseInput(stream: seq<Segment>) returns (stree: SpanningTree)
    ensures fresh(stree) && stree.segments == stream && stree.Measured()
    ensures stree.NumberedUpTo(|stream|)
  {
    stree := new SpanningTree();
    var i := 0;
    while i < |stream|
      invariant 0 <= i <= |stream| && fresh(stree)
      invariant stree.Measured() && stree.segments == stream[..i] && stree.coordinates == map[]
    {
      if stream[i].kind == Body {
        stree.HandleBody(stream[i]);
      } else {
        stree.HandleToken(stream[i]);
      }
      i := i + 1;
    }
    assert stream[..i] == stream;
    stree.Coordinatize();
  }

  // ---------------------------------------------------------------- no two bodies share coordinates

  ghost predicate LexLessAt(a: seq<int>, b: seq<int>, q: nat) {
    q < |a| && q < |b| && a[..q] == b[..q] && a[q] < b[q]
  }

  ghost predicate LexLess(a: seq<int>, b: seq<int>) {
    exists q: nat :: LexLessAt(a, b, q)
  }

  function Counts(frames: seq<Frame>): (r: seq<int>)
    ensures |r| == |frames|
    ensures forall j | 0 <= j < |frames| :: r[j] == frames[j].count
  {
    seq(|frames|, j requires 0 <= j < |frames| => frames[j].count)
  }

  // now: where the numbering stands; earlier: a body already numbered. Either now is an enclosing region
  // of it in which nothing has been counted since, or now is already past it.
  ghost predicate NotBefore(earlier: seq<int>, now: seq<int>) {
    (|now| <= |earlier| && now == earlier[..|now|]) || LexLess(earlier, now)
  }

  lemma StepKeepsNotBefore(earlier: seq<int>, frames: seq<Frame>, segment: Segment)
    requires frames != [] && NotBefore(earlier, Counts(frames))
    ensures NotBefore(earlier, Counts(StepFrames(frames, segment)))
    ensures segment.IsNumbered() ==> LexLess(earlier, Counts(StepFrames(frames, segment)))
  {
    var now, next := Counts(frames), Counts(StepFrames(frames, segment));
    var last := |now| - 1;
    if segment.kind == Begin || segment.IsNumbered() {
      assert next[..last] == now[..last] && next[last] == now[last] + 1;
      if LexLess(earlier, now) {
        var q: nat :| LexLessAt(earlier, now, q);
        assert LexLessAt(earlier, next, q);
      } else {
        assert LexLessAt(earlier, next, last);
      }
    } else if segment.kind == End && LexLess(earlier, now) {
      var q: nat :| LexLessAt(earlier, now, q);
      assert next == now[..last];
      if q < last {
        assert LexLessAt(earlier, next, q);
      } else {
        assert next == earlier[..|next|];
      }
    }
  }

  lemma {:induction false} NumberingMovesOn(segments: seq<Segment>, i: nat, k: nat, origin: nat)
    requires i < k <= |segments|
    requires forall j: nat | j <= k :: 0 <= origin + Level(segments, j)
    ensures NotBefore(Counts(OpenFrames(segments, i + 1, origin)), Counts(OpenFrames(segments, k, origin)))
    ensures i + 1 < k && segments[k - 1].IsNumbered() ==>
              LexLess(Counts(OpenFrames(segments, i + 1, origin)), Counts(OpenFrames(segments, k, origin)))
  {
    if i + 1 < k {
      NumberingMovesOn(segments, i, k - 1, origin);
      StepKeepsNotBefore(Counts(OpenFrames(segments, i + 1, origin)),
                         OpenFrames(segments, k - 1, origin), segments[k - 1]);
    }
  }

  // Body coordinates strictly increase along the stream, for any stream at all.
  lemma BodyCoordinatesIncrease(segments: seq<Segment>, i: nat, j: nat, low: int, high: int)
    requires LevelsWithin(segments, low, high) && low <= 0 <= high
    requires i < j < |segments| && segments[i].IsNumbered() && segments[j].IsNumbered()
    ensures LexLess(CoordinatesOf(segments, i, low, high).coords, CoordinatesOf(segments, j, low, high).coords)
    ensures CoordinatesOf(segments, i, low, high).coords != CoordinatesOf(segments, j, low, high).coords
  {
    NumberingMovesOn(segments, i, j + 1, -low);
    var a, b := Counts(OpenFrames(segments, i + 1, -low)), Counts(OpenFrames(segments, j + 1, -low));
    var q: nat :| LexLessAt(a, b, q);
    var ca, cb := CoordinatesOf(segments, i, low, high).coords, CoordinatesOf(segments, j, low, high).coords;
    assert ca[..q] == a[..q] && cb[..q] == b[..q];
    assert LexLessAt(ca, cb, q);
  }

  // ---------------------------------------------------------------- what the coordinates count

  /** Position j stands in the region that is innermost at level d and still open after k segments. */
  ghost predicate InRegion(segments: seq<Segment>, j: nat, k: nat, d: int)
    requires j < k <= |segments|
  {
    Level(segments, j) == d && forall m: nat | j < m <= k :: d <= Level(segments, m)
  }

  /** The segments counted directly in it: items, bodies and the begin markers of regions inside. */
  ghost function CountedIn(segments: seq<Segment>, k: nat, d: int): set<nat>
    requires k <= |segments|
  {
    set j: nat | j < k && segments[j].kind in {Begin, Item, Body} && InRegion(segments, j, k, d)
  }

  lemma CountedInOneMore(segments: seq<Segment>, k: nat, d: int)
    requires k < |segments| && d <= Level(segments, k + 1)
    ensures CountedIn(segments, k + 1, d) ==
            (if d <= Level(segments, k) then CountedIn(segments, k, d) else {})
            + (if segments[k].kind in {Begin, Item, Body} && Level(segments, k) == d then {k} else {})
  {
    forall j: nat | j < k
      ensures InRegion(segments, j, k + 1, d) <==> InRegion(segments, j, k, d) && d <= Level(segments, k)
    {
      assert InRegion(segments, j, k + 1, d) ==> d <= Level(segments, k);
    }
  }

  /** Every coordinate is the number of segments counted so far in its region, each counted once. */
  lemma {:induction false} CoordinatesCount(segments: seq<Segment>, k: nat, origin: nat, p: nat)
    requires k <= |segments| && forall j: nat | j <= k :: 0 <= origin + Level(segments, j)
    requires p < |OpenFrames(segments, k, origin)|
    ensures OpenFrames(segments, k, origin)[p].count == |CountedIn(segments, k, p - origin)|
  {
    if k > 0 {
      var frames := OpenFrames(segments, k - 1, origin);
      HowManyOneMore(segments, k - 1, p - origin);
      CountOneMore(frames, segments[k - 1], p);
      if p < |frames| {
        CoordinatesCount(segments, k - 1, origin, p);
      }
    }
  }

  lemma CountOneMore(frames: seq<Frame>, segment: Segment, p: nat)
    requires frames != [] && p < |StepFrames(frames, segment)|
    ensures StepFrames(frames, segment)[p].count == (if p < |frames| then frames[p].count else 0)
         + (if segment.kind in {Begin, Item, Body} && p == |frames| - 1 then 1 else 0)
  {
  }

  lemma HowManyOneMore(segments: seq<Segment>, k: nat, d: int)
    requires k < |segments| && d <= Level(segments, k + 1)
    ensures |CountedIn(segments, k + 1, d)|
         == (if d <= Level(segments, k) then |CountedIn(segments, k, d)| else 0)
            + (if segments[k].kind in {Begin, Item, Body} && Level(segments, k) == d then 1 else 0)
  {
    CountedInOneMore(segments, k, d);
    assert k !in CountedIn(segments, k, d);
  }

  /** With a numbered segment the counter of the innermost region goes up by one, and nothing else changes. */
  lemma NumberedSegmentsCountOne(segments: seq<Segment>, i: nat, origin: nat)
    requires i < |segments| && segments[i].IsNumbered()
    requires forall j: nat | j <= i + 1 :: 0 <= origin + Level(segments, j)
    ensures var before, after := OpenFrames(segments, i, origin), OpenFrames(segments, i + 1, origin);
            && |after| == |before|
            && after[|before| - 1].count == before[|before| - 1].count + 1
            && after[|before| - 1].opener == before[|before| - 1].opener
            && after[..|before| - 1] == before[..|before| - 1]
  {
    assert OpenFrames(segments, i + 1, origin) == StepFrames(OpenFrames(segments, i, origin), segments[i]);
  }

  // As long as the region opened by the begin marker at b stays open, the coordinates of the
  // regions around it stand still and its own dimension carries the text of that marker.
  lemma {:induction false} OpenRegionKeepsItsPath(segments: seq<Segment>, b: nat, k: nat, origin: nat)
    requires b < k <= |segments| && segments[b].kind == Begin
    requires forall j: nat | j <= k :: 0 <= origin + Level(segments, j)
    requires forall j: nat | b < j <= k :: Level(segments, b) < Level(segments, j)
    ensures var p := origin + Level(segments, b) + 1;
            && OpenFrames(segments, k, origin)[..p] == OpenFrames(segments, b + 1, origin)[..p]
            && OpenFrames(segments, k, origin)[p].opener == segments[b].text
  {
    if b + 1 < k {
      OpenRegionKeepsItsPath(segments, b, k - 1, origin);
      var p := origin + Level(segments, b) + 1;
      var frames, next := OpenFrames(segments, k - 1, origin), OpenFrames(segments, k, origin);
      assert next == StepFrames(frames, segments[k - 1]);
      assert next[..p] == frames[..p];
    }
  }
}
