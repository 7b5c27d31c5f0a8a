// The story search of stories-fs2.c: paths through the graph of associations, told from a subject.
module Stories {
  import opened Options

  const MAX_ASSOC_ARRAY := 1024
  const MAX_STORIES := 256
  const MAX_STORY_LEN := 16
  const MAX_BRANCHES := 5
  const CGN_ROOT := 99

  const GR_NEAR := 1
  const GR_FOLLOWS := 2
  const GR_CONTAINS := 3
  const GR_EXPRESSES := 4
  const GR_CONTEXT := 5

  const ALL_CONTEXTS := "any"

  /** One step of a story: the names of the association, its context, and the concept it leads to. */
  datatype Episode = Episode(fwd: string, icontext: string, cdigest: string, relevance: int)

  /** The episodes before the first empty entry, at most MAX_STORY_LEN. */
  datatype Story = Story(episodes: seq<Episode>, score: int)

  const EMPTY := Story([], 0)

  /** What GetBestAssoc finds out about one association in a state of mind. */
  datatype Best = Best(fwd: string, icontext: string, relevance: int)

  // The directory of a concept and a type: the concepts its associations lead to.
  type Graph = (string, int) -> Option<seq<string>>

  type Judgement = (seq<string>, string, int, string) -> Best

  ghost predicate Edge(graph: Graph, from: string, atype: int, to: string) {
    graph(from, atype).Some? && to in graph(from, atype).value
  }

  /**
   * The graph, how its associations are judged, the type asked for (CGN_ROOT for all), the types of
   * first steps, the depth, and the subject.
   */
  datatype Setting =
    Setting(graph: Graph, best: Judgement, asked: int, firsts: set<int>, recurse: int, subject: string)

  // ---------------------------------------------------------------- paths

  function Kinds(asked: int): set<int> {
    if asked != CGN_ROOT then {asked, -asked}
    else {GR_NEAR, -GR_NEAR, GR_FOLLOWS, -GR_FOLLOWS, GR_CONTAINS, -GR_CONTAINS, GR_EXPRESSES, -GR_EXPRESSES}
  }

  /** A story of one type does not start with the inverse of that type. */
  function Firsts(asked: int): set<int> {
    if asked != CGN_ROOT then {asked} else Kinds(asked)
  }

  /** The types step i may have. */
  predicate Allowed(s: Setting, i: nat, atype: int) {
    atype in if i == 0 then s.firsts else Kinds(s.asked)
  }

  /** Where a walk stands before step i. */
  function Standing(subject: string, concepts: seq<string>, i: nat): string
    requires i <= |concepts|
  {
    if i == 0 then subject else concepts[i - 1]
  }

  /** The type of the step before step i. */
  function TypeBefore(types: seq<int>, i: nat): int
    requires i <= |types|
  {
    if i == 0 then CGN_ROOT else types[i - 1]
  }

  /** Step i follows an association and does not turn the step before around. */
  ghost predicate Step(s: Setting, concepts: seq<string>, types: seq<int>, i: nat)
    requires i < |concepts| == |types|
  {
    && Edge(s.graph, Standing(s.subject, concepts, i), types[i], concepts[i])
    && Allowed(s, i, types[i]) && types[i] != -TypeBefore(types, i)
  }

  /** A chain of associations from the subject through concepts that are all different. */
  ghost predicate Path(s: Setting, concepts: seq<string>, types: seq<int>) {
    && |types| == |concepts| <= MAX_STORY_LEN
    && forall i {:trigger Step(s, concepts, types, i)} | 0 <= i < |concepts| ::
         Step(s, concepts, types, i) && concepts[i] !in concepts[..i]
  }

  /** A path whose last step leads back to a concept on it, within the depth of the search. */
  ghost predicate Lasso(s: Setting, concepts: seq<string>, types: seq<int>) {
    && 1 < |concepts| == |types| <= MAX_STORY_LEN && |concepts| <= s.recurse + 1
    && forall i {:trigger Step(s, concepts, types, i)} | 0 <= i < |concepts| ::
         Step(s, concepts, types, i) && (i + 1 < |concepts| <==> concepts[i] !in concepts[..i])
  }

  lemma OneStepFurther(s: Setting, concepts: seq<string>, types: seq<int>, next: string, atype: int)
    requires Path(s, concepts, types) && |concepts| < MAX_STORY_LEN && next !in concepts
    requires Allowed(s, |concepts|, atype) && atype != -TypeBefore(types, |types|)
    requires Edge(s.graph, Standing(s.subject, concepts, |concepts|), atype, next)
    ensures Path(s, concepts + [next], types + [atype])
    ensures TypeBefore(types + [atype], |types| + 1) == atype
    ensures Standing(s.subject, concepts + [next], |concepts| + 1) == next
  {
    var longer, trail := concepts + [next], types + [atype];
    forall i | 0 <= i < |longer| ensures Step(s, longer, trail, i) && longer[i] !in longer[..i] {
      if i < |concepts| {
        assert Step(s, concepts, types, i);
        assert longer[..i] == concepts[..i];
      } else {
        assert longer[..i] == concepts;
      }
    }
  }

  lemma StepBack(s: Setting, concepts: seq<string>, types: seq<int>, next: string, atype: int)
    requires Path(s, concepts, types) && concepts != [] && next in concepts
    requires |concepts| < MAX_STORY_LEN && |concepts| <= s.recurse
    requires Allowed(s, |concepts|, atype) && atype != -TypeBefore(types, |types|)
    requires Edge(s.graph, Standing(s.subject, concepts, |concepts|), atype, next)
    ensures Lasso(s, concepts + [next], types + [atype])
  {
    var longer, trail := concepts + [next], types + [atype];
    forall i | 0 <= i < |longer|
      ensures Step(s, longer, trail, i) && (i + 1 < |longer| <==> longer[i] !in longer[..i])
    {
      if i < |concepts| {
        assert Step(s, concepts, types, i);
        assert longer[..i] == concepts[..i];
      } else {
        assert longer[..i] == concepts;
      }
    }
  }

  // ---------------------------------------------------------------- judgements

  /** The episode has the name, the context and the relevance of this association in some state of mind. */
  ghost predicate Judged(best: Judgement, from: string, atype: int, episode: Episode) {
    exists mind :: JudgedIn(best, mind, from, atype, episode)
  }

  ghost predicate JudgedIn(best: Judgement, mind: seq<string>, from: string, atype: int, episode: Episode) {
    var found := best(mind, from, atype, episode.cdigest);
    && found.relevance >= 0
    && episode.fwd == found.fwd && episode.icontext == found.icontext && episode.relevance == found.relevance
  }

  /** Episode i is what the association of step i is judged to be. */
  ghost predicate JudgedAt(s: Setting, episodes: seq<Episode>, types: seq<int>, i: nat)
    requires i < |episodes| == |types|
  {
    Judged(s.best, Standing(s.subject, Concepts(episodes), i), types[i], episodes[i])
  }

  ghost predicate AllJudged(s: Setting, episodes: seq<Episode>, types: seq<int>) {
    && |types| == |episodes|
    && forall i {:trigger JudgedAt(s, episodes, types, i)} | 0 <= i < |episodes| :: JudgedAt(s, episodes, types, i)
  }

  lemma OneMoreJudged(s: Setting, episodes: seq<Episode>, types: seq<int>, next: Episode, atype: int)
    requires AllJudged(s, episodes, types)
    requires Judged(s.best, Standing(s.subject, Concepts(episodes), |episodes|), atype, next)
    ensures AllJudged(s, episodes + [next], types + [atype])
  {
    ConceptsGrow(episodes, next);
    var longer, trail := episodes + [next], types + [atype];
    forall i | 0 <= i < |longer| ensures JudgedAt(s, longer, trail, i) {
      assert Standing(s.subject, Concepts(longer), i) == Standing(s.subject, Concepts(episodes), i);
      if i < |episodes| {
        assert JudgedAt(s, episodes, types, i);
      }
    }
  }

  // ---------------------------------------------------------------- scores

  function Concepts(episodes: seq<Episode>): (concepts: seq<string>)
    ensures |concepts| == |episodes| && forall i | 0 <= i < |episodes| :: concepts[i] == episodes[i].cdigest
  {
    seq(|episodes|, i requires 0 <= i < |episodes| => episodes[i].cdigest)
  }

  lemma ConceptsGrow(episodes: seq<Episode>, next: Episode)
    ensures Concepts(episodes + [next]) == Concepts(episodes) + [next.cdigest]
  {
  }

  function Sum(episodes: seq<Episode>): int {
    if episodes == [] then 0 else Sum(episodes[..|episodes| - 1]) + episodes[|episodes| - 1].relevance
  }

  // The cast of a double to int.
  function Truncated(x: real): int {
    if x >= 0.0 then x.Floor else -((-x).Floor)
  }

  /** The rounded mean relevance. */
  function Score(episodes: seq<Episode>): int
    requires episodes != []
  {
    Truncated(Sum(episodes) as real / |episodes| as real + 0.5)
  }

  lemma {:induction false} SumIsBetween(episodes: seq<Episode>, low: int, high: int)
    requires forall i | 0 <= i < |episodes| :: low <= episodes[i].relevance <= high
    ensures low * |episodes| <= Sum(episodes) <= high * |episodes|
  {
    if episodes != [] {
      SumIsBetween(episodes[..|episodes| - 1], low, high);
    }
  }

  lemma ProductsGrow(a: real, b: real, n: real)
    requires a < b && n > 0.0
    ensures a * n < b * n
  {
  }

  lemma DivisionUndone(sum: int, n: nat)
    requires n > 0
    ensures (sum as real / n as real) * n as real == sum as real
  {
  }

  lemma MeanIsAtLeast(mean: real, n: nat, sum: int, low: int)
    requires n > 0 && mean * n as real == sum as real && low * n <= sum
    ensures low as real <= mean
  {
    assert low as real * n as real == (low * n) as real;
    if mean < low as real {
      ProductsGrow(mean, low as real, n as real);
      assert false;
    }
  }

  lemma RoundingStaysBetween(mean: real, low: nat, high: int)
    requires low as real <= mean <= high as real
    ensures low <= Truncated(mean + 0.5) <= high
  {
  }

  lemma RoundedMean(sum: int, n: nat, low: nat, high: nat)
    requires n > 0 && low * n <= sum <= high * n
    ensures low <= Truncated(sum as real / n as real + 0.5) <= high
  {
    var mean := sum as real / n as real;
    DivisionUndone(sum, n);
    MeanIsAtLeast(mean, n, sum, low);
    RoundingStaysBetween(mean, low, high);
  }

  /** The score lies between the smallest and the largest relevance. */
  lemma ScoreIsBetween(episodes: seq<Episode>, low: nat, high: nat)
    requires episodes != [] && forall i | 0 <= i < |episodes| :: low <= episodes[i].relevance <= high
    ensures low <= Score(episodes) <= high
  {
    SumIsBetween(episodes, low, high);
    RoundedMean(Sum(episodes), |episodes|, low, high);
  }

  /** The sum of the relevances, however the episodes are split. */
  lemma {:induction false} SumsAddUp(front: seq<Episode>, back: seq<Episode>)
    ensures Sum(front + back) == Sum(front) + Sum(back)
    ensures forall e: Episode :: Sum([e]) == e.relevance
  {
    forall e: Episode ensures Sum([e]) == e.relevance {
      assert [e][..0] == [];
    }
    if back == [] {
      assert front + back == front;
    } else {
      assert (front + back)[..|front + back| - 1] == front + back[..|back| - 1];
      SumsAddUp(front, back[..|back| - 1]);
    }
  }

  lemma HalfMore(mean: real, n: nat, sum: int)
    requires mean * n as real == sum as real
    ensures (mean + 0.5) * (2 * n) as real == (2 * sum + n) as real
  {
  }

  lemma MeanIsLess(mean: real, n: nat, sum: int, high: int)
    requires n > 0 && mean * n as real == sum as real && sum < high * n
    ensures mean < high as real
  {
    assert high as real * n as real == (high * n) as real;
    if mean > high as real {
      ProductsGrow(high as real, mean, n as real);
      assert false;
    }
  }

  lemma FloorOfAQuotient(quotient: real, n: nat, sum: int, floor: int)
    requires n > 0 && quotient * n as real == sum as real && floor as real <= quotient < (floor + 1) as real
    ensures floor * n <= sum < (floor + 1) * n
  {
    if sum < floor * n {
      MeanIsLess(quotient, n, sum, floor);
      assert false;
    }
    if (floor + 1) * n <= sum {
      MeanIsAtLeast(quotient, n, sum, floor + 1);
      assert false;
    }
  }

  lemma TruncatedIsTheFloor(x: real)
    requires x >= 0.0
    ensures Truncated(x) as real <= x < (Truncated(x) + 1) as real
  {
  }

  lemma NearestInteger(mean: real, n: nat, sum: nat)
    requires n > 0 && mean * n as real == sum as real && mean >= 0.0
    ensures var score := Truncated(mean + 0.5); score * (2 * n) <= 2 * sum + n < (score + 1) * (2 * n)
  {
    HalfMore(mean, n, sum);
    TruncatedIsTheFloor(mean + 0.5);
    FloorOfAQuotient(mean + 0.5, 2 * n, 2 * sum + n, Truncated(mean + 0.5));
  }

  lemma SumIsNatural(episodes: seq<Episode>)
    requires forall i | 0 <= i < |episodes| :: episodes[i].relevance >= 0
    ensures Sum(episodes) >= 0
  {
    SumIsBetween(episodes, 0, AnUpperBound(episodes));
  }

  /** The score is the integer nearest to the mean, the greater one halfway between two. */
  lemma ScoreIsNearest(episodes: seq<Episode>)
    requires episodes != [] && forall i | 0 <= i < |episodes| :: episodes[i].relevance >= 0
    ensures var n, score := |episodes|, Score(episodes);
            score * (2 * n) <= 2 * Sum(episodes) + n < (score + 1) * (2 * n)
  {
    SumIsNatural(episodes);
    var mean := MeanOf(Sum(episodes), |episodes|);
    NearestInteger(mean, |episodes|, Sum(episodes));
  }

  lemma MeanOf(sum: nat, n: nat) returns (mean: real)
    requires n > 0
    ensures mean == sum as real / n as real && mean * n as real == sum as real && mean >= 0.0
  {
    mean := sum as real / n as real;
    DivisionUndone(sum, n);
    MeanIsAtLeast(mean, n, sum, 0);
  }

  function AnUpperBound(episodes: seq<Episode>): (most: nat)
    requires forall i | 0 <= i < |episodes| :: episodes[i].relevance >= 0
    ensures forall i | 0 <= i < |episodes| :: episodes[i].relevance <= most
  {
    if episodes == [] then 0
    else
      var rest := AnUpperBound(episodes[1..]);
      assert forall i | 0 < i < |episodes| :: episodes[i] == episodes[1..][i - 1];
      episodes[0].relevance + rest
  }

  // ---------------------------------------------------------------- what is told

  /** What every recorded story is: the part of a lasso before its last step. */
  ghost predicate Told(s: Setting, story: Story, trail: seq<int>) {
    && story.episodes != [] && Path(s, Concepts(story.episodes), trail)
    && (exists next, atype :: Lasso(s, Concepts(story.episodes) + [next], trail + [atype]))
    && AllJudged(s, story.episodes, trail)
    && story.score == Score(story.episodes)
  }

  /** The first n slots hold told stories, the others are empty; one is left over. */
  ghost predicate Slots(s: Setting, slots: seq<Story>, n: nat, trails: seq<seq<int>>) {
    && |slots| == MAX_STORIES && n < MAX_STORIES && |trails| == n
    && (forall k {:trigger slots[k]} | 0 <= k < n :: Told(s, slots[k], trails[k]))
    && (forall k {:trigger slots[k]} | n <= k < MAX_STORIES :: slots[k] == EMPTY)
  }

  lemma OneMoreSlot(s: Setting, slots: seq<Story>, n: nat, trails: seq<seq<int>>, story: Story, trail: seq<int>)
    requires Slots(s, slots, n, trails) && n + 1 < MAX_STORIES && Told(s, story, trail)
    ensures Slots(s, slots[n := story], n + 1, trails + [trail])
  {
  }

  /** The first n slots are as they were. */
  ghost predicate Stay(before: seq<Story>, n: nat, after: seq<Story>, m: nat) {
    n <= m && n <= |before| == |after| && before[..n] == after[..n]
  }

  lemma PrefixesStay(before: seq<Story>, n: nat, between: seq<Story>, m: nat, after: seq<Story>, o: nat)
    requires Stay(before, n, between, m) && Stay(between, m, after, o)
    ensures Stay(before, n, after, o)
  {
    assert between[..m][..n] == after[..m][..n];
  }

  // ---------------------------------------------------------------- what is left to tell

  ghost predicate Recorded(slots: seq<Story>, n: nat, concepts: seq<string>) {
    exists k :: 0 <= k < n <= |slots| && Concepts(slots[k].episodes) == concepts
  }

  /** No room is left, or the way of this lasso is recorded. */
  ghost predicate Done(slots: seq<Story>, n: nat, concepts: seq<string>) {
    n >= MAX_STORIES - 1 || (concepts != [] && Recorded(slots, n, concepts[..|concepts| - 1]))
  }

  /** The lasso goes on from this path with a step of one of these types, to one of these concepts. */
  ghost predicate GoesOn(concepts: seq<string>, types: seq<int>, path: seq<string>, trail: seq<int>, kinds: set<int>,
                         nexts: iset<string>) {
    && |path| == |trail| < |concepts| == |types| && concepts[..|path|] == path && types[..|path|] == trail
    && types[|path|] in kinds && concepts[|path|] in nexts
  }

  /** Every lasso that goes on so is done. */
  ghost predicate Swept(s: Setting, slots: seq<Story>, n: nat, path: seq<string>, trail: seq<int>, kinds: set<int>,
                        nexts: iset<string>) {
    forall concepts, types | Lasso(s, concepts, types) && GoesOn(concepts, types, path, trail, kinds, nexts) ::
      Done(slots, n, concepts)
  }

  lemma DoneStays(slots: seq<Story>, n: nat, after: seq<Story>, m: nat, concepts: seq<string>)
    requires Stay(slots, n, after, m) && Done(slots, n, concepts) && m <= |after|
    ensures Done(after, m, concepts)
  {
    if n < MAX_STORIES - 1 {
      var k :| 0 <= k < n <= |slots| && Concepts(slots[k].episodes) == concepts[..|concepts| - 1];
      assert slots[..n][k] == after[..n][k];
      assert Concepts(after[k].episodes) == concepts[..|concepts| - 1];
    }
  }

  lemma SweptStays(s: Setting, slots: seq<Story>, n: nat, after: seq<Story>, m: nat, path: seq<string>,
                   trail: seq<int>, kinds: set<int>, nexts: iset<string>)
    requires Swept(s, slots, n, path, trail, kinds, nexts) && Stay(slots, n, after, m) && m <= |after|
    ensures Swept(s, after, m, path, trail, kinds, nexts)
  {
    forall concepts, types | Lasso(s, concepts, types) && GoesOn(concepts, types, path, trail, kinds, nexts)
      ensures Done(after, m, concepts)
    {
      DoneStays(slots, n, after, m, concepts);
    }
  }

  lemma SweptTogether(s: Setting, slots: seq<Story>, n: nat, path: seq<string>, trail: seq<int>, kinds: set<int>,
                      others: set<int>, nexts: iset<string>)
    requires Swept(s, slots, n, path, trail, kinds, nexts) && Swept(s, slots, n, path, trail, others, nexts)
    ensures Swept(s, slots, n, path, trail, kinds + others, nexts)
  {
    forall concepts, types | Lasso(s, concepts, types) && GoesOn(concepts, types, path, trail, kinds + others, nexts)
      ensures Done(slots, n, concepts)
    {
      assert GoesOn(concepts, types, path, trail, kinds, nexts) || GoesOn(concepts, types, path, trail, others, nexts);
    }
  }

  lemma SweptOneMore(s: Setting, slots: seq<Story>, n: nat, path: seq<string>, trail: seq<int>, kinds: set<int>,
                     nexts: iset<string>, others: iset<string>)
    requires Swept(s, slots, n, path, trail, kinds, nexts) && Swept(s, slots, n, path, trail, kinds, others)
    ensures Swept(s, slots, n, path, trail, kinds, nexts + others)
  {
    forall concepts, types | Lasso(s, concepts, types) && GoesOn(concepts, types, path, trail, kinds, nexts + others)
      ensures Done(slots, n, concepts)
    {
      assert GoesOn(concepts, types, path, trail, kinds, nexts) || GoesOn(concepts, types, path, trail, kinds, others);
    }
  }

  ghost const ANYWHERE: iset<string> := iset c: string | true

  /** Only the concepts that associations lead to matter. */
  lemma SweptEverywhere(s: Setting, slots: seq<Story>, n: nat, path: seq<string>, trail: seq<int>, atype: int,
                        nexts: iset<string>)
    requires |path| == |trail| && Swept(s, slots, n, path, trail, {atype}, nexts)
    requires forall next | Edge(s.graph, Standing(s.subject, path, |path|), atype, next) :: next in nexts
    ensures Swept(s, slots, n, path, trail, {atype}, ANYWHERE)
  {
    forall concepts, types | Lasso(s, concepts, types) && GoesOn(concepts, types, path, trail, {atype}, ANYWHERE)
      ensures Done(slots, n, concepts)
    {
      assert Step(s, concepts, types, |path|);
      assert Standing(s.subject, concepts, |path|) == Standing(s.subject, path, |path|) by {
        if |path| > 0 {
          assert concepts[..|path|][|path| - 1] == concepts[|path| - 1];
        }
      }
      assert GoesOn(concepts, types, path, trail, {atype}, nexts);
    }
  }

  lemma StepsOfALasso(s: Setting, concepts: seq<string>, types: seq<int>, path: seq<string>, trail: seq<int>,
                      kinds: set<int>, nexts: iset<string>)
    requires Lasso(s, concepts, types) && GoesOn(concepts, types, path, trail, kinds, nexts)
    ensures types[|path|] != -TypeBefore(trail, |trail|) && |path| < MAX_STORY_LEN && |path| <= s.recurse
  {
    assert Step(s, concepts, types, |path|);
    if |path| > 0 {
      assert types[..|path|][|path| - 1] == types[|path| - 1];
    }
  }

  /** No lasso turns around, and none is deeper than the search. */
  lemma NothingToSweep(s: Setting, slots: seq<Story>, n: nat, path: seq<string>, trail: seq<int>, atype: int,
                       nexts: iset<string>)
    requires |path| == |trail|
    requires atype == -TypeBefore(trail, |trail|) || |path| >= MAX_STORY_LEN || |path| > s.recurse
    ensures Swept(s, slots, n, path, trail, {atype}, nexts)
  {
    forall concepts, types | Lasso(s, concepts, types) && GoesOn(concepts, types, path, trail, {atype}, nexts)
      ensures types[|path|] != -TypeBefore(trail, |trail|) && |path| < MAX_STORY_LEN && |path| <= s.recurse
    {
      StepsOfALasso(s, concepts, types, path, trail, {atype}, nexts);
    }
  }

  /** A step to a concept on the path ends a lasso. */
  lemma SweptWhereItComesBack(s: Setting, slots: seq<Story>, n: nat, path: seq<string>, trail: seq<int>, atype: int,
                              next: string)
    requires next in path && (n >= MAX_STORIES - 1 || Recorded(slots, n, path))
    ensures Swept(s, slots, n, path, trail, {atype}, iset{next})
  {
    forall concepts, types | Lasso(s, concepts, types) && GoesOn(concepts, types, path, trail, {atype}, iset{next})
      ensures Done(slots, n, concepts)
    {
      assert Step(s, concepts, types, |path|);
      assert concepts[|path|] == next;
      assert |path| + 1 == |concepts|;
    }
  }

  // What lies beyond a longer path lies beyond the step that lengthens it.
  lemma GoesOnThroughANewConcept(s: Setting, concepts: seq<string>, types: seq<int>, path: seq<string>,
                                 trail: seq<int>, atype: int, next: string)
    requires Lasso(s, concepts, types) && GoesOn(concepts, types, path, trail, {atype}, iset{next})
    requires next !in path
    ensures GoesOn(concepts, types, path + [next], trail + [atype], Kinds(s.asked), ANYWHERE)
  {
    var p := |path|;
    assert Step(s, concepts, types, p) && concepts[p] == next;
    assert p + 1 < |concepts|;
    assert Step(s, concepts, types, p + 1);
    assert concepts[..p + 1] == concepts[..p] + [concepts[p]];
    assert types[..p + 1] == types[..p] + [types[p]];
  }

  /** A step to a new concept is swept once the longer path is. */
  lemma SweptThroughANewConcept(s: Setting, slots: seq<Story>, n: nat, path: seq<string>, trail: seq<int>, atype: int,
                                next: string)
    requires next !in path && |path| == |trail|
    requires Swept(s, slots, n, path + [next], trail + [atype], Kinds(s.asked), ANYWHERE)
    ensures Swept(s, slots, n, path, trail, {atype}, iset{next})
  {
    forall concepts, types | Lasso(s, concepts, types) && GoesOn(concepts, types, path, trail, {atype}, iset{next})
      ensures Done(slots, n, concepts)
    {
      GoesOnThroughANewConcept(s, concepts, types, path, trail, atype, next);
    }
  }

  /** No directory is too long for the search, and nothing is irrelevant. */
  ghost predicate Open(graph: Graph, best: Judgement) {
    && (forall concept, atype | graph(concept, atype).Some? :: |graph(concept, atype).value| <= MAX_BRANCHES + 2)
    && forall mind, from, atype, to :: best(mind, from, atype, to).relevance >= 0
  }

  // ---------------------------------------------------------------- the search

  class Narrator {
    const graph: Graph
    const best: Judgement
    const asked: int
    const stories: array<Story>
    var recurse: int
    var counter: nat
    var mind: seq<string>
    ghost var setting: Setting
    ghost var trails: seq<seq<int>>

    ghost predicate Valid()
      reads this, stories
    {
      && setting == Setting(graph, best, asked, setting.firsts, recurse, setting.subject)
      && Slots(setting, stories[..], counter, trails)
    }

    constructor (graph: Graph, best: Judgement, asked: int, recurse: int)
      ensures Valid() && counter == 0 && fresh(stories)
      ensures this.graph == graph && this.best == best && this.asked == asked && this.recurse == recurse
    {
      this.graph, this.best, this.asked, this.recurse := graph, best, asked, recurse;
      stories := new Story[MAX_STORIES](i => EMPTY);
      counter, mind, setting, trails := 0, [], Setting(graph, best, asked, {}, recurse, ""), [];
    }

    /**
     * RankAssociationsByContext: the associations whose relevance is not negative. The sort that
     * follows does not order them reliably, so nothing is said about their order.
     */
    method RankAssociationsByContext(fromconcept: string, atype: int) returns (ranked: Option<seq<Episode>>)
      ensures ranked.Some? <==> graph(fromconcept, atype).Some?
      ensures ranked.Some? ==> |ranked.value| <= |graph(fromconcept, atype).value|
      ensures ranked.Some? ==> forall i | 0 <= i < |ranked.value| ::
                && Edge(graph, fromconcept, atype, ranked.value[i].cdigest) && ranked.value[i].relevance >= 0
                && var found := best(mind, fromconcept, atype, ranked.value[i].cdigest);
                   ranked.value[i] == Episode(found.fwd, found.icontext, ranked.value[i].cdigest, found.relevance)
      ensures ranked.Some? && |ranked.value| < MAX_ASSOC_ARRAY ==>
                forall to | Edge(graph, fromconcept, atype, to) && best(mind, fromconcept, atype, to).relevance >= 0 ::
                  to in Concepts(ranked.value)
    {
      var dir := graph(fromconcept, atype);
      if dir.None? {
        return None;
      }
      var found: seq<Episode> := [];
      var d := 0;
      while d < |dir.value| && |found| < MAX_ASSOC_ARRAY
        invariant d <= |dir.value| && |found| <= MAX_ASSOC_ARRAY && |found| <= d
        invariant forall i | 0 <= i < |found| ::
                    found[i].cdigest in dir.value && JudgedIn(best, mind, fromconcept, atype, found[i])
        invariant forall k | 0 <= k < d :: best(mind, fromconcept, atype, dir.value[k]).relevance >= 0
                                       ==> dir.value[k] in Concepts(found)
      {
        var next := dir.value[d];
        var assoc := best(mind, fromconcept, atype, next);
        if assoc.relevance >= 0 {
          ConceptsGrow(found, Episode(assoc.fwd, assoc.icontext, next, assoc.relevance));
          found := found + [Episode(assoc.fwd, assoc.icontext, next, assoc.relevance)];
        }
        d := d + 1;
      }
      return Some(found);
    }

    method ConceptAlreadyUsed(concept: string, story: seq<Episode>) returns (used: bool)
      ensures used <==> concept in Concepts(story)
    {
      var i := 0;
      while i < |story|
        invariant i <= |story| && concept !in Concepts(story)[..i]
      {
        if story[i].cdigest == concept {
          assert Concepts(story)[i] == concept;
          return true;
        }
        i := i + 1;
      }
      return false;
    }

    /** Into a slot that is still empty; at least one episode is averaged. */
    method CopyStory(slot: nat, from: seq<Episode>)
      requires slot < stories.Length && stories[slot] == EMPTY && from != []
      modifies stories
      ensures stories[..] == old(stories[..])[slot := Story(from, Score(from))]
    {
      var to := stories[slot].episodes;
      var sum, num := 0.0, 0.0;
      for i := 0 to |from|
        invariant to == from[..i] && sum == Sum(from[..i]) as real && num == i as real
        invariant stories[..] == old(stories[..])
      {
        assert from[..i + 1][..i] == from[..i];
        to := to + [from[i]];
        sum := sum + from[i].relevance as real;
        num := num + 1.0;
      }
      assert from[..|from|] == from;
      assert sum == Sum(from) as real && num == |from| as real;
      stories[slot] := Story(to, Truncated(sum / num + 0.5));
    }

    /** The story the search has come along, with the types of its steps. */
    ghost predicate Here(story: seq<Episode>, types: seq<int>)
      reads this`setting
    {
      Path(setting, Concepts(story), types) && AllJudged(setting, story, types)
    }

    /**
     * FindPathBranches: what it adds is told, what was recorded before stays, and with an open
     * graph every lasso that goes on from this story with this type is done.
     */
    method SearchForContextualizedAssociations(concept: string, atype: int, prevtype: int, level: nat,
                                               thisstory: seq<Episode>, ghost types: seq<int>)
      requires Valid() && level == |thisstory| && Here(thisstory, types) && Allowed(setting, level, atype)
      requires concept == Standing(setting.subject, Concepts(thisstory), level) && prevtype == TypeBefore(types, |types|)
      modifies this`counter, this`mind, this`trails, stories
      ensures Valid() && Stay(old(stories[..]), old(counter), stories[..], counter)
      ensures Open(graph, best) ==>
                Swept(setting, stories[..], counter, Concepts(thisstory), types, {atype}, ANYWHERE)
      decreases MAX_STORY_LEN - level, 1
    {
      ghost var path := Concepts(thisstory);
      var ranked := RankAssociationsByContext(concept, atype);
      ghost var nexts: iset<string> := iset{};
      if ranked.None? {
        SweptEverywhere(setting, stories[..], counter, path, types, atype, nexts);
        return;
      }
      assert forall i | 0 <= i < |ranked.value| :: JudgedIn(best, mind, concept, atype, ranked.value[i]);
      var count := 0;
      for i := 0 to |ranked.value|
        invariant Valid() && Stay(old(stories[..]), old(counter), stories[..], counter)
        invariant count <= i && forall k | 0 <= k < i :: ranked.value[k].cdigest in nexts
        invariant Open(graph, best) ==> Swept(setting, stories[..], counter, path, types, {atype}, nexts)
      {
        ghost var slots, n := stories[..], counter;
        var counted := Consider(prevtype, atype, level, concept, ranked.value[i], thisstory, types);
        PrefixesStay(old(stories[..]), old(counter), slots, n, stories[..], counter);
        if Open(graph, best) {
          SweptStays(setting, slots, n, stories[..], counter, path, types, {atype}, nexts);
          SweptOneMore(setting, stories[..], counter, path, types, {atype}, nexts, iset{ranked.value[i].cdigest});
        }
        nexts := nexts + iset{ranked.value[i].cdigest};
        if counted {
          count := count + 1;
          if count - 1 > MAX_BRANCHES {
            break;
          }
        }
      }
      if Open(graph, best) {
        SweptEverywhere(setting, stories[..], counter, path, types, atype, nexts);
      }
    }

    /** One turn of the loop over the associations; whether it counts as a branch. */
    method Consider(prevtype: int, atype: int, level: nat, concept: string, assoc: Episode, thisstory: seq<Episode>,
                    ghost types: seq<int>)
      returns (counted: bool)
      requires Valid() && level == |thisstory| && Here(thisstory, types) && Allowed(setting, level, atype)
      requires concept == Standing(setting.subject, Concepts(thisstory), level) && prevtype == TypeBefore(types, |types|)
      requires Edge(graph, concept, atype, assoc.cdigest) && Judged(best, concept, atype, assoc)
      modifies this`counter, this`mind, this`trails, stories
      ensures Valid() && Stay(old(stories[..]), old(counter), stories[..], counter)
      ensures Open(graph, best) ==>
                Swept(setting, stories[..], counter, Concepts(thisstory), types, {atype}, iset{assoc.cdigest})
      decreases MAX_STORY_LEN - level, 0, 2
    {
      if atype == -prevtype || level > recurse || level >= MAX_STORY_LEN {
        NothingToSweep(setting, stories[..], counter, Concepts(thisstory), types, atype, iset{assoc.cdigest});
      }
      if assoc.relevance < 0 {
        return false;
      }
      if atype == -prevtype {
        return false;
      }
      if level < recurse + 1 && level < MAX_STORY_LEN {
        Explore(prevtype, atype, level, concept, assoc, thisstory, types);
        return true;
      }
      return false;
    }

    /** Follows one association; where it comes back, the story so far is recorded if there is room. */
    method Explore(prevtype: int, atype: int, level: nat, concept: string, assoc: Episode, thisstory: seq<Episode>,
                   ghost types: seq<int>)
      requires Valid() && level == |thisstory| && Here(thisstory, types) && Allowed(setting, level, atype)
      requires level < MAX_STORY_LEN && level <= recurse
      requires concept == Standing(setting.subject, Concepts(thisstory), level) && prevtype == TypeBefore(types, |types|)
      requires Edge(graph, concept, atype, assoc.cdigest) && Judged(best, concept, atype, assoc) && atype != -prevtype
      modifies this`counter, this`mind, this`trails, stories
      ensures Valid() && Stay(old(stories[..]), old(counter), stories[..], counter)
      ensures Open(graph, best) ==>
                Swept(setting, stories[..], counter, Concepts(thisstory), types, {atype}, iset{assoc.cdigest})
      decreases MAX_STORY_LEN - level, 0, 1
    {
      var followed := FollowNextAssociation(prevtype, atype, level, concept, assoc, thisstory, types);
      if !followed {
        if counter < MAX_STORIES - 1 {
          StepBack(setting, Concepts(thisstory), types, assoc.cdigest, atype);
          RecordStory(thisstory, types);
        }
        SweptWhereItComesBack(setting, stories[..], counter, Concepts(thisstory), types, atype, assoc.cdigest);
      }
    }

    method RecordStory(story: seq<Episode>, ghost types: seq<int>)
      requires Valid() && counter < MAX_STORIES - 1 && story != [] && Told(setting, Story(story, Score(story)), types)
      modifies this`counter, this`trails, stories
      ensures Valid() && counter == old(counter) + 1 && Stay(old(stories[..]), old(counter), stories[..], counter)
      ensures Recorded(stories[..], counter, Concepts(story))
    {
      var slot := counter;
      assert stories[..][slot] == EMPTY;
      OneMoreSlot(setting, stories[..], slot, trails, Story(story, Score(story)), types);
      counter := counter + 1;
      CopyStory(slot, story);
      trails := trails + [types];
      assert Concepts(stories[..][slot].episodes) == Concepts(story);
    }

    /** Whether the next concept was new; if so, all that follows from it has been searched. */
    method FollowNextAssociation(prevtype: int, atype: int, level: nat, concept: string, assoc: Episode,
                                 thisstory: seq<Episode>, ghost types: seq<int>)
      returns (followed: bool)
      requires Valid() && level == |thisstory| && Here(thisstory, types) && Allowed(setting, level, atype)
      requires level < MAX_STORY_LEN
      requires concept == Standing(setting.subject, Concepts(thisstory), level) && prevtype == TypeBefore(types, |types|)
      requires Edge(graph, concept, atype, assoc.cdigest) && Judged(best, concept, atype, assoc) && atype != -prevtype
      modifies this`counter, this`mind, this`trails, stories
      ensures Valid() && Stay(old(stories[..]), old(counter), stories[..], counter)
      ensures followed <==> assoc.cdigest !in Concepts(thisstory)
      ensures !followed ==> counter == old(counter) && stories[..] == old(stories[..])
      ensures followed && Open(graph, best) ==>
                Swept(setting, stories[..], counter, Concepts(thisstory), types, {atype}, iset{assoc.cdigest})
      decreases MAX_STORY_LEN - level, 0, 0
    {
      var used := ConceptAlreadyUsed(assoc.cdigest, thisstory);
      if used {
        return false;
      }
      ghost var path := Concepts(thisstory);
      ConceptsGrow(thisstory, assoc);
      OneMoreJudged(setting, thisstory, types, assoc, atype);
      OneStepFurther(setting, path, types, assoc.cdigest, atype);
      mind := mind + [assoc.icontext];
      SearchOn(assoc.cdigest, atype, level + 1, thisstory + [assoc], types + [atype]);
      if Open(graph, best) {
        SweptThroughANewConcept(setting, stories[..], counter, path, types, atype, assoc.cdigest);
      }
      return true;
    }

    /** A type and its inverse. */
    method SearchBothWays(concept: string, atype: int, prevtype: int, level: nat, story: seq<Episode>,
                          ghost types: seq<int>)
      requires Valid() && level == |story| && Here(story, types)
      requires Allowed(setting, level, atype) && Allowed(setting, level, -atype)
      requires concept == Standing(setting.subject, Concepts(story), level) && prevtype == TypeBefore(types, |types|)
      modifies this`counter, this`mind, this`trails, stories
      ensures Valid() && Stay(old(stories[..]), old(counter), stories[..], counter)
      ensures Open(graph, best) ==>
                Swept(setting, stories[..], counter, Concepts(story), types, {atype, -atype}, ANYWHERE)
      decreases MAX_STORY_LEN - level, 2
    {
      SearchForContextualizedAssociations(concept, atype, prevtype, level, story, types);
      ghost var slots, n := stories[..], counter;
      SearchForContextualizedAssociations(concept, -atype, prevtype, level, story, types);
      PrefixesStay(old(stories[..]), old(counter), slots, n, stories[..], counter);
      if Open(graph, best) {
        SweptStays(setting, slots, n, stories[..], counter, Concepts(story), types, {atype}, ANYWHERE);
        SweptTogether(setting, stories[..], counter, Concepts(story), types, {atype}, {-atype}, ANYWHERE);
        assert {atype} + {-atype} == {atype, -atype};
      }
    }

    /** One type and its inverse more, after others. */
    method SearchOneKind(concept: string, atype: int, prevtype: int, level: nat, story: seq<Episode>,
                         ghost types: seq<int>, ghost slots: seq<Story>, ghost n: nat, ghost kinds: set<int>)
      requires Valid() && level == |story| && Here(story, types)
      requires Allowed(setting, level, atype) && Allowed(setting, level, -atype)
      requires concept == Standing(setting.subject, Concepts(story), level) && prevtype == TypeBefore(types, |types|)
      requires Stay(slots, n, stories[..], counter)
      requires Open(graph, best) ==> Swept(setting, stories[..], counter, Concepts(story), types, kinds, ANYWHERE)
      modifies this`counter, this`mind, this`trails, stories
      ensures Valid() && Stay(slots, n, stories[..], counter)
      ensures Open(graph, best) ==>
                Swept(setting, stories[..], counter, Concepts(story), types, kinds + {atype, -atype}, ANYWHERE)
      decreases MAX_STORY_LEN - level, 3
    {
      ghost var between, m := stories[..], counter;
      SearchBothWays(concept, atype, prevtype, level, story, types);
      PrefixesStay(slots, n, between, m, stories[..], counter);
      if Open(graph, best) {
        SweptStays(setting, between, m, stories[..], counter, Concepts(story), types, kinds, ANYWHERE);
        SweptTogether(setting, stories[..], counter, Concepts(story), types, kinds, {atype, -atype}, ANYWHERE);
      }
    }

    /** All types a next step may have. */
    method SearchOn(concept: string, prevtype: int, level: nat, story: seq<Episode>, ghost types: seq<int>)
      requires Valid() && 0 < level == |story| && Here(story, types)
      requires concept == Standing(setting.subject, Concepts(story), level) && prevtype == TypeBefore(types, |types|)
      modifies this`counter, this`mind, this`trails, stories
      ensures Valid() && Stay(old(stories[..]), old(counter), stories[..], counter)
      ensures Open(graph, best) ==>
                Swept(setting, stories[..], counter, Concepts(story), types, Kinds(asked), ANYWHERE)
      decreases MAX_STORY_LEN - level, 4
    {
      ghost var slots, n := stories[..], counter;
      if asked != CGN_ROOT {
        SearchBothWays(concept, asked, prevtype, level, story, types);
      } else {
        SearchOneKind(concept, GR_EXPRESSES, prevtype, level, story, types, slots, n, {});
        SearchOneKind(concept, GR_FOLLOWS, prevtype, level, story, types, slots, n, {4, -4});
        SearchOneKind(concept, GR_NEAR, prevtype, level, story, types, slots, n, {4, -4, 2, -2});
        SearchOneKind(concept, GR_CONTAINS, prevtype, level, story, types, slots, n, {4, -4, 2, -2, 1, -1});
      }
    }

    /** The stories of a subject, from an empty list on. */
    method TellStories(subject: string)
      requires stories.Length == MAX_STORIES
      modifies this`counter, this`mind, this`setting, this`trails, stories
      ensures Valid() && setting == Setting(graph, best, asked, Firsts(asked), recurse, subject)
      ensures Open(graph, best) ==>
                forall concepts, types | Lasso(setting, concepts, types) :: Done(stories[..], counter, concepts)
    {
      for i := 0 to MAX_STORIES
        invariant forall k | 0 <= k < i :: stories[k] == EMPTY
      {
        stories[i] := EMPTY;
      }
      counter, trails, setting := 0, [], Setting(graph, best, asked, Firsts(asked), recurse, subject);
      ghost var slots := stories[..];
      if asked != CGN_ROOT {
        SearchForContextualizedAssociations(subject, asked, CGN_ROOT, 0, [], []);
      } else {
        SearchOneKind(subject, GR_FOLLOWS, CGN_ROOT, 0, [], [], slots, 0, {});
        SearchOneKind(subject, GR_NEAR, CGN_ROOT, 0, [], [], slots, 0, {2, -2});
        SearchOneKind(subject, GR_CONTAINS, CGN_ROOT, 0, [], [], slots, 0, {2, -2, 1, -1});
        SearchOneKind(subject, GR_EXPRESSES, CGN_ROOT, 0, [], [], slots, 0, {2, -2, 1, -1, 3, -3});
      }
      if Open(graph, best) {
        EveryLassoStartsHere(setting, stories[..], counter);
      }
    }

    /** Without a subject: the search starts from the contexts, one step deep, before any story is told. */
    method ShowMatchingConcepts()
      requires Valid() && counter == 0
      modifies this`counter, this`mind, this`recurse, this`setting, this`trails, stories
      ensures Valid() && setting == Setting(graph, best, asked, {GR_CONTEXT}, 1, ALL_CONTEXTS)
      ensures Open(graph, best) ==>
                forall concepts, types | Lasso(setting, concepts, types) :: Done(stories[..], counter, concepts)
    {
      recurse := 1;
      setting := Setting(graph, best, asked, {GR_CONTEXT}, 1, ALL_CONTEXTS);
      SearchForContextualizedAssociations(ALL_CONTEXTS, GR_CONTEXT, CGN_ROOT, 0, [], []);
      if Open(graph, best) {
        EveryLassoStartsHere(setting, stories[..], counter);
      }
    }
  }

  lemma EveryLassoStartsHere(s: Setting, slots: seq<Story>, n: nat)
    requires Swept(s, slots, n, [], [], s.firsts, ANYWHERE)
    ensures forall concepts, types | Lasso(s, concepts, types) :: Done(slots, n, concepts)
  {
    forall concepts, types | Lasso(s, concepts, types) ensures Done(slots, n, concepts) {
      assert Step(s, concepts, types, 0);
      assert GoesOn(concepts, types, [], [], s.firsts, ANYWHERE);
    }
  }

  // ---------------------------------------------------------------- what the stories are

  /** Every recorded story is a non-empty path, at most recurse and at most 15 long; the last slot stays empty. */
  lemma RecordedStoriesAreShort(s: Setting, slots: seq<Story>, n: nat, trails: seq<seq<int>>, k: nat)
    requires Slots(s, slots, n, trails) && k < n
    ensures Path(s, Concepts(slots[k].episodes), trails[k])
    ensures 0 < |slots[k].episodes| == |trails[k]| < MAX_STORY_LEN && |slots[k].episodes| <= s.recurse
    ensures slots[MAX_STORIES - 1] == EMPTY
  {
    assert Told(s, slots[k], trails[k]);
    var next, atype :| Lasso(s, Concepts(slots[k].episodes) + [next], trails[k] + [atype]);
  }

  /** On a path every step is an association, none turns the step before around, and the concepts differ. */
  lemma PathsInWords(s: Setting, concepts: seq<string>, types: seq<int>, i: nat, j: nat)
    requires Path(s, concepts, types) && i < j < |concepts|
    ensures Edge(s.graph, if i == 0 then s.subject else concepts[i - 1], types[i], concepts[i])
    ensures Edge(s.graph, concepts[j - 1], types[j], concepts[j]) && types[j] != -types[j - 1]
    ensures concepts[i] != concepts[j]
  {
    assert Step(s, concepts, types, i) && Step(s, concepts, types, j);
  }

  /** The score of a recorded story lies between its smallest and its largest relevance. */
  lemma RecordedScores(s: Setting, slots: seq<Story>, n: nat, trails: seq<seq<int>>, k: nat, low: nat, high: nat)
    requires Slots(s, slots, n, trails) && k < n
    requires forall i | 0 <= i < |slots[k].episodes| :: low <= slots[k].episodes[i].relevance <= high
    ensures low <= slots[k].score <= high
  {
    assert Told(s, slots[k], trails[k]);
    ScoreIsBetween(slots[k].episodes, low, high);
  }

  /**
   * Every episode of a recorded story has the name, the context and the relevance that the best
   * association from where the walk stands to its concept has, in some state of mind.
   */
  lemma EpisodesAreJudged(s: Setting, slots: seq<Story>, n: nat, trails: seq<seq<int>>, k: nat, i: nat)
    returns (mind: seq<string>)
    requires Slots(s, slots, n, trails) && k < n && i < |slots[k].episodes|
    ensures |trails[k]| == |slots[k].episodes|
    ensures var episodes := slots[k].episodes;
            var found := s.best(mind, if i == 0 then s.subject else episodes[i - 1].cdigest, trails[k][i],
                                episodes[i].cdigest);
            found.relevance >= 0
            && episodes[i] == Episode(found.fwd, found.icontext, episodes[i].cdigest, found.relevance)
  {
    assert Told(s, slots[k], trails[k]);
    var episodes, trail := slots[k].episodes, trails[k];
    assert JudgedAt(s, episodes, trail, i);
    mind :| JudgedIn(s.best, mind, Standing(s.subject, Concepts(episodes), i), trail[i], episodes[i]);
  }

  /** What bounds the relevance of the associations bounds the score of what is told about them. */
  lemma ScoresFollowTheAssociations(s: Setting, slots: seq<Story>, n: nat, trails: seq<seq<int>>, k: nat, low: nat,
                                    high: nat)
    requires Slots(s, slots, n, trails) && k < n
    requires forall mind, from, atype, to | Edge(s.graph, from, atype, to) ::
               low <= s.best(mind, from, atype, to).relevance <= high
    ensures low <= slots[k].score <= high
  {
    assert Told(s, slots[k], trails[k]);
    var episodes := slots[k].episodes;
    forall i | 0 <= i < |episodes| ensures low <= episodes[i].relevance <= high {
      var mind := EpisodesAreJudged(s, slots, n, trails, k, i);
      assert Step(s, Concepts(episodes), trails[k], i);
      assert Edge(s.graph, Standing(s.subject, Concepts(episodes), i), trails[k][i], episodes[i].cdigest);
    }
    RecordedScores(s, slots, n, trails, k, low, high);
  }

  /** Where the state of mind does not matter, the way alone decides what is told. */
  lemma CertainJudgements(s: Setting, slots: seq<Story>, n: nat, trails: seq<seq<int>>, k: nat, i: nat,
                          judge: (string, int, string) -> Best)
    requires Slots(s, slots, n, trails) && k < n && i < |slots[k].episodes|
    requires forall mind, from, atype, to :: s.best(mind, from, atype, to) == judge(from, atype, to)
    ensures |trails[k]| == |slots[k].episodes|
    ensures var episodes := slots[k].episodes;
            var found := judge(if i == 0 then s.subject else episodes[i - 1].cdigest, trails[k][i],
                               episodes[i].cdigest);
            episodes[i] == Episode(found.fwd, found.icontext, episodes[i].cdigest, found.relevance)
  {
    var mind := EpisodesAreJudged(s, slots, n, trails, k, i);
    var episodes := slots[k].episodes;
    var from, atype, to := if i == 0 then s.subject else episodes[i - 1].cdigest, trails[k][i], episodes[i].cdigest;
    assert s.best(mind, from, atype, to) == judge(from, atype, to);
  }

  /** When one type is asked for, every step has that type. */
  lemma {:induction false} StoriesKeepTheirType(s: Setting, concepts: seq<string>, types: seq<int>, i: nat)
    requires Path(s, concepts, types) && s.asked != CGN_ROOT && s.firsts == {s.asked} && i < |types|
    ensures types[i] == s.asked
  {
    assert Step(s, concepts, types, i);
    if i > 0 {
      StoriesKeepTheirType(s, concepts, types, i - 1);
    }
  }

  /** In an open graph, unless the room runs out, the recorded ways are those of the lassos, all of them. */
  lemma RecordedExactly(s: Setting, slots: seq<Story>, n: nat, trails: seq<seq<int>>, path: seq<string>)
    requires Slots(s, slots, n, trails) && n < MAX_STORIES - 1
    requires forall concepts, types | Lasso(s, concepts, types) :: Done(slots, n, concepts)
    ensures Recorded(slots, n, path)
       <==> exists concepts, types :: Lasso(s, concepts, types) && concepts[..|concepts| - 1] == path
  {
    if Recorded(slots, n, path) {
      var k :| 0 <= k < n && Concepts(slots[k].episodes) == path;
      assert Told(s, slots[k], trails[k]);
      var next, atype :| Lasso(s, path + [next], trails[k] + [atype]);
      assert (path + [next])[..|path|] == path;
    }
  }

  // ---------------------------------------------------------------- graphs that tell no story

  /** Associations of this type lead to concepts of greater height: they form no cycle. */
  ghost predicate Rises(graph: Graph, atype: int, height: string -> int) {
    forall from, to | Edge(graph, from, atype, to) :: height(from) < height(to)
  }

  lemma {:induction false} LassosKeepTheirType(s: Setting, concepts: seq<string>, types: seq<int>, i: nat)
    requires Lasso(s, concepts, types) && s.asked != CGN_ROOT && s.firsts == {s.asked} && i < |types|
    ensures types[i] == s.asked
  {
    assert Step(s, concepts, types, i);
    if i > 0 {
      LassosKeepTheirType(s, concepts, types, i - 1);
    }
  }

  lemma {:induction false} LassosRise(s: Setting, concepts: seq<string>, types: seq<int>, height: string -> int,
                                      i: nat, j: nat)
    requires Lasso(s, concepts, types) && s.asked != CGN_ROOT && s.firsts == {s.asked}
    requires Rises(s.graph, s.asked, height) && i < j < |concepts|
    ensures height(concepts[i]) < height(concepts[j])
  {
    assert Step(s, concepts, types, j);
    LassosKeepTheirType(s, concepts, types, j);
    if i < j - 1 {
      LassosRise(s, concepts, types, height, i, j - 1);
    }
  }

  /** A story is recorded only for a lasso, and a lasso meets itself. */
  lemma StoriesComeFromLassos(s: Setting, slots: seq<Story>, n: nat, trails: seq<seq<int>>)
    returns (concepts: seq<string>, types: seq<int>, i: nat)
    requires Slots(s, slots, n, trails) && n > 0
    ensures Lasso(s, concepts, types) && i < |concepts| - 1 && concepts[i] == concepts[|concepts| - 1]
  {
    assert Told(s, slots[0], trails[0]);
    var path := Concepts(slots[0].episodes);
    var next, atype :| Lasso(s, path + [next], trails[0] + [atype]);
    concepts, types := path + [next], trails[0] + [atype];
    assert Step(s, concepts, types, |path|);
    i :| 0 <= i < |path| && concepts[..|path|][i] == next;
  }

  /** Stories of one type: where that type forms no cycle, nothing is told, whatever its inverse does. */
  lemma RisingTypesTellNothing(s: Setting, slots: seq<Story>, n: nat, trails: seq<seq<int>>, height: string -> int)
    requires Slots(s, slots, n, trails) && s.asked != CGN_ROOT && s.firsts == {s.asked}
    requires Rises(s.graph, s.asked, height)
    ensures n == 0
  {
    if n > 0 {
      var concepts, types, i := StoriesComeFromLassos(s, slots, n, trails);
      LassosRise(s, concepts, types, height, i, |concepts| - 1);
      assert false;
    }
  }

  /** The types a search follows. */
  function Followed(s: Setting): set<int> {
    s.firsts + Kinds(s.asked)
  }

  ghost predicate Below(parent: string -> string, depth: string -> int, child: string, concept: string) {
    parent(child) == concept && depth(concept) < depth(child)
  }

  /** Without regard to direction, the associations a search follows join every concept to its parent only. */
  ghost predicate Forest(s: Setting, parent: string -> string, depth: string -> int) {
    forall from, atype, to | Edge(s.graph, from, atype, to) && atype in Followed(s) ::
      Below(parent, depth, from, to) || Below(parent, depth, to, from)
  }

  /** The ways back along an association are its inverse only. */
  ghost predicate OneTypePerPair(s: Setting) {
    forall from, atype, to, back | Edge(s.graph, from, atype, to) && Edge(s.graph, to, back, from) ::
      atype in Followed(s) && back in Followed(s) ==> back == -atype
  }

  // Where the walk stands before step i, the place it ends in included.
  function At(s: Setting, concepts: seq<string>, i: nat): string
    requires i <= |concepts|
  {
    Standing(s.subject, concepts, i)
  }

  ghost predicate Descends(s: Setting, concepts: seq<string>, i: nat, parent: string -> string, depth: string -> int)
    requires i < |concepts|
  {
    Below(parent, depth, At(s, concepts, i + 1), At(s, concepts, i))
  }

  lemma UpOrDown(s: Setting, concepts: seq<string>, types: seq<int>, i: nat, parent: string -> string,
                 depth: string -> int)
    requires Lasso(s, concepts, types) && Forest(s, parent, depth) && i < |concepts|
    ensures !Descends(s, concepts, i, parent, depth) ==> Below(parent, depth, At(s, concepts, i), At(s, concepts, i + 1))
  {
    assert Step(s, concepts, types, i);
  }

  lemma NeverStraightBack(s: Setting, concepts: seq<string>, types: seq<int>, i: nat)
    requires Lasso(s, concepts, types) && OneTypePerPair(s) && i + 1 < |concepts|
    ensures At(s, concepts, i + 2) != At(s, concepts, i)
  {
    assert Step(s, concepts, types, i) && Step(s, concepts, types, i + 1);
    assert Edge(s.graph, At(s, concepts, i), types[i], At(s, concepts, i + 1));
    assert Edge(s.graph, At(s, concepts, i + 1), types[i + 1], At(s, concepts, i + 2));
    assert types[i + 1] != -types[i];
  }

  lemma {:induction false} DownStaysDown(s: Setting, concepts: seq<string>, types: seq<int>, i: nat, j: nat,
                                         parent: string -> string, depth: string -> int)
    requires Lasso(s, concepts, types) && Forest(s, parent, depth) && OneTypePerPair(s)
    requires i <= j < |concepts| && Descends(s, concepts, i, parent, depth)
    ensures Descends(s, concepts, j, parent, depth)
    ensures depth(At(s, concepts, i)) < depth(At(s, concepts, j + 1))
  {
    if i < j {
      DownStaysDown(s, concepts, types, i, j - 1, parent, depth);
      UpOrDown(s, concepts, types, j, parent, depth);
      NeverStraightBack(s, concepts, types, j - 1);
    }
  }

  lemma {:induction false} UpUntilUp(s: Setting, concepts: seq<string>, types: seq<int>, i: nat, j: nat,
                                     parent: string -> string, depth: string -> int)
    requires Lasso(s, concepts, types) && Forest(s, parent, depth) && OneTypePerPair(s)
    requires i <= j < |concepts| && !Descends(s, concepts, j, parent, depth)
    ensures depth(At(s, concepts, j + 1)) < depth(At(s, concepts, i))
  {
    UpOrDown(s, concepts, types, j, parent, depth);
    if i < j {
      if Descends(s, concepts, j - 1, parent, depth) {
        DownStaysDown(s, concepts, types, j - 1, j, parent, depth);
      }
      UpUntilUp(s, concepts, types, i, j - 1, parent, depth);
    }
  }

  /** A walk that never turns around goes up, then down, and meets no concept twice. */
  lemma {:induction false} WalksInForestsDoNotMeetThemselves(s: Setting, concepts: seq<string>, types: seq<int>,
                                                             i: nat, j: nat, parent: string -> string,
                                                             depth: string -> int)
    requires Lasso(s, concepts, types) && Forest(s, parent, depth) && OneTypePerPair(s)
    requires i < j <= |concepts|
    ensures At(s, concepts, i) != At(s, concepts, j)
    decreases j - i
  {
    if Descends(s, concepts, i, parent, depth) {
      DownStaysDown(s, concepts, types, i, j - 1, parent, depth);
    } else if !Descends(s, concepts, j - 1, parent, depth) {
      UpUntilUp(s, concepts, types, i, j - 1, parent, depth);
    } else {
      UpOrDown(s, concepts, types, i, parent, depth);
      if i + 2 == j {
        NeverStraightBack(s, concepts, types, i);
      } else if i + 1 < j - 1 {
        WalksInForestsDoNotMeetThemselves(s, concepts, types, i + 1, j - 1, parent, depth);
      }
    }
  }

  /** Where the associations form a forest, an association and its inverse counted once, nothing is told. */
  lemma ForestsTellNothing(s: Setting, slots: seq<Story>, n: nat, trails: seq<seq<int>>, parent: string -> string,
                           depth: string -> int)
    requires Slots(s, slots, n, trails) && Forest(s, parent, depth) && OneTypePerPair(s)
    ensures n == 0
  {
    if n > 0 {
      var concepts, types, i := StoriesComeFromLassos(s, slots, n, trails);
      WalksInForestsDoNotMeetThemselves(s, concepts, types, i + 1, |concepts|, parent, depth);
      assert false;
    }
  }

  /** Every association is stored with its inverse. */
  ghost predicate Mirrored(graph: Graph) {
    forall from, atype, to | Edge(graph, from, atype, to) :: Edge(graph, to, -atype, from)
  }

  /** a leads to b and b to c, both ends stored. */
  function ChainOfThree(a: string, b: string, c: string, atype: int): Graph {
    (concept, t) =>
      if t == atype then (if concept == a then Some([b]) else if concept == b then Some([c]) else None)
      else if t == -atype then (if concept == b then Some([a]) else if concept == c then Some([b]) else None)
      else None
  }

  lemma EdgesOfTheChain(a: string, b: string, c: string, atype: int, from: string, t: int, to: string)
    requires a != b && a != c && b != c && atype != 0
    ensures Edge(ChainOfThree(a, b, c, atype), from, t, to)
       <==> (t == atype && ((from == a && to == b) || (from == b && to == c)))
            || (t == -atype && ((from == b && to == a) || (from == c && to == b)))
  {
  }

  /** A chain of three concepts, stored from both ends, tells no story, of all types or of one, from any subject. */
  lemma ChainsTellNothing(s: Setting, slots: seq<Story>, n: nat, trails: seq<seq<int>>, a: string, b: string,
                          c: string, atype: int)
    requires a != b && a != c && b != c && atype in Kinds(CGN_ROOT)
    requires s.graph == ChainOfThree(a, b, c, atype) && Slots(s, slots, n, trails)
    ensures Mirrored(s.graph)
    ensures n == 0
  {
    forall from, t, to
      ensures Edge(s.graph, from, t, to) <==> (t == atype && ((from == a && to == b) || (from == b && to == c)))
                                              || (t == -atype && ((from == b && to == a) || (from == c && to == b)))
    {
      EdgesOfTheChain(a, b, c, atype, from, t, to);
    }
    var depth: string -> int := concept => if concept == a then 0 else if concept == b then 1 else 2;
    var parent: string -> string := concept => if concept == b then a else b;
    assert Forest(s, parent, depth);
    assert OneTypePerPair(s);
    ForestsTellNothing(s, slots, n, trails, parent, depth);
  }

  // ---------------------------------------------------------------- cycles are told

  function After(i: nat, n: nat): nat {
    if i + 1 == n then 0 else i + 1
  }

  /** Different concepts, each associated with the next and the last with the first, no step turning around. */
  ghost predicate Cycle(s: Setting, ring: seq<string>, types: seq<int>) {
    && 0 < |ring| == |types| < MAX_STORY_LEN && |ring| <= s.recurse
    && (forall i, j | 0 <= i < j < |ring| :: ring[i] != ring[j])
    && types[0] in s.firsts && types[0] != -CGN_ROOT
    && forall i {:trigger Turn(s, ring, types, i)} | 0 <= i < |ring| :: Turn(s, ring, types, i)
  }

  ghost predicate Turn(s: Setting, ring: seq<string>, types: seq<int>, i: nat)
    requires i < |ring| == |types|
  {
    var next := After(i, |ring|);
    Edge(s.graph, ring[i], types[i], ring[next]) && types[i] in Kinds(s.asked) && types[next] != -types[i]
  }

  /** Once around and one step further. */
  function Around(ring: seq<string>): (concepts: seq<string>)
    requires ring != []
    ensures |concepts| == |ring| + 1 && concepts[|ring|] == ring[After(0, |ring|)]
    ensures forall i | 0 <= i < |ring| :: concepts[i] == ring[After(i, |ring|)]
  {
    ring[1..] + [ring[0], ring[After(0, |ring|)]]
  }

  lemma StepsAround(s: Setting, ring: seq<string>, types: seq<int>, i: nat)
    requires Cycle(s, ring, types) && s.subject == ring[0] && i <= |ring|
    ensures Step(s, Around(ring), types + [types[0]], i)
  {
    var n := |ring|;
    var at := if i < n then i else 0;
    var before := if i > 0 then i - 1 else 0;
    assert Turn(s, ring, types, at) && Turn(s, ring, types, before);
    assert i > 0 ==> After(before, n) == at;
    assert (types + [types[0]])[i] == types[at];
    StandingAround(s.subject, ring, i);
  }

  lemma StandingAround(subject: string, ring: seq<string>, i: nat)
    requires ring != [] && subject == ring[0] && i <= |ring|
    ensures var at := if i < |ring| then i else 0;
            Standing(subject, Around(ring), i) == ring[at] && Around(ring)[i] == ring[After(at, |ring|)]
  {
  }

  lemma MeetsItselfAtLast(ring: seq<string>, i: nat)
    requires ring != [] && i <= |ring| && forall i, j | 0 <= i < j < |ring| :: ring[i] != ring[j]
    ensures i < |ring| <==> Around(ring)[i] !in Around(ring)[..i]
  {
    var n := |ring|;
    assert forall j | 0 <= j < i :: Around(ring)[..i][j] == ring[After(j, n)];
    if i == n {
      assert Around(ring)[..i][0] == Around(ring)[i];
    }
  }

  lemma AroundACycle(s: Setting, ring: seq<string>, types: seq<int>)
    requires Cycle(s, ring, types) && s.subject == ring[0]
    ensures Lasso(s, Around(ring), types + [types[0]])
  {
    forall i: nat | i <= |ring|
      ensures Step(s, Around(ring), types + [types[0]], i)
      ensures i < |ring| <==> Around(ring)[i] !in Around(ring)[..i]
    {
      StepsAround(s, ring, types, i);
      MeetsItselfAtLast(ring, i);
    }
  }

  /**
   * In an open graph, unless the room runs out, a cycle within the depth is told from each of its
   * concepts, the subject coming last.
   */
  lemma CyclesAreTold(s: Setting, slots: seq<Story>, n: nat, ring: seq<string>, types: seq<int>)
    requires Cycle(s, ring, types) && s.subject == ring[0] && n < MAX_STORIES - 1
    requires forall concepts, trail | Lasso(s, concepts, trail) :: Done(slots, n, concepts)
    ensures Recorded(slots, n, ring[1..] + [ring[0]])
  {
    AroundACycle(s, ring, types);
    assert Done(slots, n, Around(ring));
    assert Around(ring)[..|ring|] == ring[1..] + [ring[0]];
  }

  ghost predicate Leg(s: Setting, ring: seq<string>, types: seq<int>, i: nat)
    requires i < |ring| == |types|
  {
    && Edge(s.graph, ring[i], types[i], ring[After(i, |ring|)]) && types[After(i, |ring|)] != -types[i]
    && (1 <= types[i] <= 4 || -4 <= types[i] <= -1)
  }

  /** With no type asked for, cycles of any of the four types and their inverses are told. */
  lemma CyclesOfAllTypesAreTold(s: Setting, slots: seq<Story>, n: nat, ring: seq<string>, types: seq<int>)
    requires s.asked == CGN_ROOT && s.firsts == Firsts(CGN_ROOT)
    requires 0 < |ring| == |types| < MAX_STORY_LEN && |ring| <= s.recurse && s.subject == ring[0]
    requires forall i, j | 0 <= i < j < |ring| :: ring[i] != ring[j]
    requires forall i {:trigger Leg(s, ring, types, i)} | 0 <= i < |ring| :: Leg(s, ring, types, i)
    requires n < MAX_STORIES - 1 && forall concepts, trail | Lasso(s, concepts, trail) :: Done(slots, n, concepts)
    ensures Recorded(slots, n, ring[1..] + [ring[0]])
  {
    forall i | 0 <= i < |ring| ensures Turn(s, ring, types, i) {
      assert Leg(s, ring, types, i);
    }
    assert Leg(s, ring, types, 0);
    CyclesAreTold(s, slots, n, ring, types);
  }

  // ---------------------------------------------------------------- a story with its score

  /** a leads to b, b to c and c back to b. */
  function ThereAndBack(a: string, b: string, c: string, atype: int): Graph {
    (concept, t) =>
      if t != atype then None
      else if concept == a || concept == c then Some([b]) else if concept == b then Some([c]) else None
  }

  lemma EdgesThereAndBack(a: string, b: string, c: string, atype: int, from: string, t: int, to: string)
    requires a != b && a != c && b != c
    ensures Edge(ThereAndBack(a, b, c, atype), from, t, to)
       <==> t == atype && ((from == a && to == b) || (from == c && to == b) || (from == b && to == c))
  {
  }

  /** The settings of the story of b and c, told from a. */
  ghost predicate Example(s: Setting, a: string, b: string, c: string) {
    && a != b && a != c && b != c && s.graph == ThereAndBack(a, b, c, s.asked) && s.subject == a
    && s.asked in Kinds(CGN_ROOT) && s.firsts == {s.asked} && s.recurse >= 2
  }

  lemma TheOnlyWay(s: Setting, concepts: seq<string>, types: seq<int>, a: string, b: string, c: string)
    requires Example(s, a, b, c) && Lasso(s, concepts, types)
    ensures concepts[..|concepts| - 1] == [b, c]
  {
    assert Step(s, concepts, types, 0) && Step(s, concepts, types, 1);
    EdgesThereAndBack(a, b, c, s.asked, a, types[0], concepts[0]);
    EdgesThereAndBack(a, b, c, s.asked, b, types[1], concepts[1]);
    assert concepts[..1] == [b];
    assert Step(s, concepts, types, 2);
    EdgesThereAndBack(a, b, c, s.asked, c, types[2], concepts[2]);
    assert concepts[..2] == [b, c];
    assert concepts[..2][0] == concepts[2];
  }

  lemma ItIsAWay(s: Setting, a: string, b: string, c: string)
    requires Example(s, a, b, c)
    ensures Lasso(s, [b, c, b], [s.asked, s.asked, s.asked])
  {
    var concepts, types := [b, c, b], [s.asked, s.asked, s.asked];
    EdgesThereAndBack(a, b, c, s.asked, a, s.asked, b);
    EdgesThereAndBack(a, b, c, s.asked, b, s.asked, c);
    EdgesThereAndBack(a, b, c, s.asked, c, s.asked, b);
    assert Step(s, concepts, types, 0) && Step(s, concepts, types, 1) && Step(s, concepts, types, 2);
    assert concepts[..1] == [b] && concepts[..2] == [b, c];
  }

  /**
   * Of a, which leads to b, b to c and c back to b, the one story is told that goes from b to c, with
   * the names and contexts of the associations; if all are as relevant, that is its score.
   */
  lemma ThereAndBackIsTold(s: Setting, slots: seq<Story>, n: nat, trails: seq<seq<int>>, a: string, b: string,
                           c: string, name: string, context: string, relevance: nat)
    requires Example(s, a, b, c) && Slots(s, slots, n, trails) && n < MAX_STORIES - 1
    requires forall concepts, types | Lasso(s, concepts, types) :: Done(slots, n, concepts)
    requires forall mind, from, atype, to :: s.best(mind, from, atype, to) == Best(name, context, relevance)
    ensures n > 0
    ensures forall k | 0 <= k < n ::
              slots[k] == Story([Episode(name, context, b, relevance), Episode(name, context, c, relevance)], relevance)
  {
    ItIsAWay(s, a, b, c);
    assert Done(slots, n, [b, c, b]);
    forall k | 0 <= k < n
      ensures slots[k]
           == Story([Episode(name, context, b, relevance), Episode(name, context, c, relevance)], relevance)
    {
      ToldAsBAndC(s, slots, n, trails, k, a, b, c, name, context, relevance);
    }
  }

  lemma ToldAsBAndC(s: Setting, slots: seq<Story>, n: nat, trails: seq<seq<int>>, k: nat, a: string, b: string,
                    c: string, name: string, context: string, relevance: nat)
    requires Example(s, a, b, c) && Slots(s, slots, n, trails) && k < n
    requires forall mind, from, atype, to :: s.best(mind, from, atype, to) == Best(name, context, relevance)
    ensures slots[k].episodes == [Episode(name, context, b, relevance), Episode(name, context, c, relevance)]
    ensures slots[k].score == relevance
  {
    assert Told(s, slots[k], trails[k]);
    var episodes := slots[k].episodes;
    var path := Concepts(episodes);
    var next, atype :| Lasso(s, path + [next], trails[k] + [atype]);
    TheOnlyWay(s, path + [next], trails[k] + [atype], a, b, c);
    assert (path + [next])[..|path|] == path;
    var judge: (string, int, string) -> Best := (from, t, to) => Best(name, context, relevance);
    CertainJudgements(s, slots, n, trails, k, 0, judge);
    CertainJudgements(s, slots, n, trails, k, 1, judge);
    assert path[0] == episodes[0].cdigest && path[1] == episodes[1].cdigest;
    RecordedScores(s, slots, n, trails, k, relevance, relevance);
  }

  // ---------------------------------------------------------------- one step deep

  /** One step deep only a concept that is associated with itself is told. */
  lemma OneStepDeep(s: Setting, concept: string)
    requires s.recurse == 1
    ensures (exists concepts, types :: Lasso(s, concepts, types) && concepts[..|concepts| - 1] == [concept])
       <==> exists first, atype :: FirstThenItself(s, concept, first, atype)
  {
    if concepts, types :| Lasso(s, concepts, types) && concepts[..|concepts| - 1] == [concept] {
      assert Step(s, concepts, types, 0) && Step(s, concepts, types, 1);
      assert concepts[..1][0] == concepts[0];
      assert FirstThenItself(s, concept, types[0], types[1]);
    }
    if first, atype :| FirstThenItself(s, concept, first, atype) {
      var concepts, types := [concept, concept], [first, atype];
      assert Step(s, concepts, types, 0) && Step(s, concepts, types, 1);
      assert Lasso(s, concepts, types);
      assert concepts[..1] == [concept];
    }
  }

  ghost predicate FirstThenItself(s: Setting, concept: string, first: int, atype: int) {
    && first in s.firsts && first != -CGN_ROOT && Edge(s.graph, s.subject, first, concept)
    && atype in Kinds(s.asked) && atype != -first && Edge(s.graph, concept, atype, concept)
  }
}
