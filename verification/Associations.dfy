// The graph of named associations that conceptualize-fs.c builds through associations.c. Each file
// of the store lists the aliases of one association; its path is the key.
module Associations {
  const MAX_ASSOC_ARRAY := 1024
  const GR_CONTEXT := 5
  const ALL_CONTEXTS := "any"

  datatype Key = Key(concept1: string, atype: int, concept2: string)

  datatype Alias = Alias(fwd: string, bwd: string, icontext: string, weight: real, lastseen: int)

  type Store = map<Key, seq<Alias>>

  /** One call of UpdateAssociation, at the time seen. */
  datatype Update = Update(context: string, key: Key, fwd: string, bwd: string, seen: int)

  function Inverse(key: Key): Key {
    Key(key.concept2, -key.atype, key.concept1)
  }

  function ListOf(store: Store, key: Key): seq<Alias> {
    if key in store then store[key] else []
  }

  /** The first alias of this name, |list| without one. */
  function IndexOf(list: seq<Alias>, fwd: string): (i: nat)
    ensures i <= |list|
    ensures i < |list| ==> list[i].fwd == fwd
    ensures forall k | 0 <= k < i :: list[k].fwd != fwd
  {
    if list == [] || list[0].fwd == fwd then 0 else 1 + IndexOf(list[1..], fwd)
  }

  function Refreshed(list: seq<Alias>, u: Update): (r: seq<Alias>)
    ensures |list| <= |r| <= |list| + 1
  {
    var i := IndexOf(list, u.fwd);
    if i < |list| then list[i := list[i].(weight := 0.6 + 0.4 * list[i].weight, lastseen := u.seen)]
    else if |list| < MAX_ASSOC_ARRAY then list + [Alias(u.fwd, u.bwd, u.context, 0.7, u.seen)]
    else list
  }

  function Updated(store: Store, u: Update): Store {
    if u.fwd == "" then store else store[u.key := Refreshed(ListOf(store, u.key), u)]
  }

  function Run(store: Store, us: seq<Update>): Store {
    if us == [] then store else Updated(Run(store, us[..|us| - 1]), us[|us| - 1])
  }

  // ---------------------------------------------------------------- tuples

  datatype Tuple = Tuple(from: string, atype: int, afwd: string, to: string, abwd: string, icontext: string, seen: int)

  predicate Complete(t: Tuple) {
    t.from != "" && t.afwd != "" && t.abwd != "" && t.to != "" && t.icontext != ""
  }

  /** The same association seen from its other end. */
  function Mirror(u: Update): Update {
    Update(u.context, Inverse(u.key), u.bwd, u.fwd, u.seen)
  }

  const APPEARS := "appears in the context of"
  const MENTIONS := "mentions the story topic"

  /** The four associations a tuple states; each is entered from both ends. */
  function Stated(t: Tuple, digest: string -> string): seq<Update> {
    var from, to, ictx, all := digest(t.from), digest(t.to), digest(t.icontext), digest(ALL_CONTEXTS);
    [ Update(t.icontext, Key(from, t.atype, to), t.afwd, t.abwd, t.seen),
      Update(ALL_CONTEXTS, Key(from, -GR_CONTEXT, ictx), APPEARS, MENTIONS, t.seen),
      Update(ALL_CONTEXTS, Key(to, -GR_CONTEXT, ictx), APPEARS, MENTIONS, t.seen),
      Update(ALL_CONTEXTS, Key(all, GR_CONTEXT, ictx), "contains", "is contained by", t.seen) ]
  }

  function BothEnds(us: seq<Update>): seq<Update> {
    if us == [] then [] else BothEnds(us[..|us| - 1]) + [us[|us| - 1], Mirror(us[|us| - 1])]
  }

  /** How many tuples are read: the first incomplete one ends the reading. */
  function CompleteTuples(ts: seq<Tuple>): (n: nat)
    ensures n <= |ts| && forall k | 0 <= k < n :: Complete(ts[k])
    ensures n < |ts| ==> !Complete(ts[n])
  {
    if ts == [] || !Complete(ts[0]) then 0 else 1 + CompleteTuples(ts[1..])
  }

  function AllStated(ts: seq<Tuple>, digest: string -> string): seq<Update> {
    if ts == [] then [] else AllStated(ts[..|ts| - 1], digest) + Stated(ts[|ts| - 1], digest)
  }

  /** Every call of UpdateAssociation that reading these tuples makes, in order. */
  function Calls(ts: seq<Tuple>, digest: string -> string): seq<Update> {
    BothEnds(AllStated(ts[..CompleteTuples(ts)], digest))
  }

  // ---------------------------------------------------------------- the store on disk

  class KnowledgeGraph {
    const digest: string -> string
    var concepts: map<string, string>
    var store: Store

    constructor (digest: string -> string)
      ensures this.digest == digest && concepts == map[] && store == map[]
    {
      this.digest, concepts, store := digest, map[], map[];
    }

    /** Every concept is filed under its digest, and both ends of every association are concepts. */
    ghost predicate Consistent()
      reads this
    {
      && (forall d | d in concepts :: digest(concepts[d]) == d)
      && (forall key | key in store :: key.concept1 in concepts && key.concept2 in concepts)
    }

    method UpdateAssociation(context: string, concept1: string, atype: int, fwd: string, bwd: string, concept2: string,
                             now: int)
      modifies `store
      ensures store == Updated(old(store), Update(context, Key(concept1, atype, concept2), fwd, bwd, now))
    {
      if fwd == "" {
        return;
      }
      var key := Key(concept1, atype, concept2);
      ghost var update := Update(context, key, fwd, bwd, now);
      var aliases := ListOf(store, key);
      var done, i := false, 0;
      while i < |aliases| && !done
        invariant store == old(store)
        invariant i <= |aliases| && forall k | 0 <= k < i :: aliases[k].fwd != fwd
        invariant !done ==> aliases == ListOf(store, key)
        invariant done ==> aliases == Refreshed(ListOf(store, key), update)
        decreases |aliases| - i, !done
      {
        if aliases[i].fwd == fwd {
          aliases := aliases[i := aliases[i].(weight := 0.6 + 0.4 * aliases[i].weight, lastseen := now)];
          done := true;
        } else {
          i := i + 1;
        }
      }
      if !done {
        if i < MAX_ASSOC_ARRAY {
          aliases := aliases + [Alias(fwd, bwd, context, 0.7, now)];
        }
      }
      assert aliases == Refreshed(ListOf(store, key), update);
      store := store[key := aliases];
    }

    method UpdateConcept(name: string) returns (d: string)
      modifies `concepts
      ensures d == digest(name) && concepts == old(concepts)[d := name]
      ensures old(Consistent()) ==> Consistent()
    {
      d := digest(name);
      concepts := concepts[d := name];
    }

    /** Both ends of one stated association. */
    method UpdateBothEnds(u: Update)
      modifies `store
      ensures store == EnteredTwice(old(store), u)
      ensures old(Consistent()) && u.key.concept1 in concepts && u.key.concept2 in concepts ==> Consistent()
    {
      UpdateAssociation(u.context, u.key.concept1, u.key.atype, u.fwd, u.bwd, u.key.concept2, u.seen);
      UpdateAssociation(u.context, u.key.concept2, -u.key.atype, u.bwd, u.fwd, u.key.concept1, u.seen);
    }

    /** One line of the tuple file. */
    method ReadTuple(t: Tuple)
      modifies this
      ensures store == RunBothEnds(old(store), Stated(t, digest))
      ensures concepts == old(concepts)[digest(t.from) := t.from][digest(t.to) := t.to]
                          [digest(t.icontext) := t.icontext][digest(ALL_CONTEXTS) := ALL_CONTEXTS]
      ensures old(Consistent()) ==> Consistent()
    {
      FourBothEnds(store, Stated(t, digest));
      var from := UpdateConcept(t.from);
      var to := UpdateConcept(t.to);
      UpdateBothEnds(Update(t.icontext, Key(from, t.atype, to), t.afwd, t.abwd, t.seen));
      var ictx := UpdateConcept(t.icontext);
      var all := UpdateConcept(ALL_CONTEXTS);
      TieToContext(t, from, to, ictx, all);
    }

    /** The context of a tuple is a concept of its own, tied to both topics and to all contexts. */
    method TieToContext(t: Tuple, from: string, to: string, ictx: string, all: string)
      requires from == digest(t.from) && to == digest(t.to) && ictx == digest(t.icontext) && all == digest(ALL_CONTEXTS)
      modifies `store
      ensures var s := Stated(t, digest);
              store == EnteredTwice(EnteredTwice(EnteredTwice(old(store), s[1]), s[2]), s[3])
      ensures old(Consistent()) && {from, to, ictx, all} <= concepts.Keys ==> Consistent()
    {
      UpdateBothEnds(Update(ALL_CONTEXTS, Key(from, -GR_CONTEXT, ictx), APPEARS, MENTIONS, t.seen));
      UpdateBothEnds(Update(ALL_CONTEXTS, Key(to, -GR_CONTEXT, ictx), APPEARS, MENTIONS, t.seen));
      UpdateBothEnds(Update(ALL_CONTEXTS, Key(all, GR_CONTEXT, ictx), "contains", "is contained by", t.seen));
    }

    /** ReadTupleFile: up to the first incomplete tuple. */
    method ReadTupleFile(tuples: seq<Tuple>)
      modifies this
      ensures store == Run(old(store), Calls(tuples, digest))
      ensures old(Consistent()) ==> Consistent()
    {
      var line := 0;
      ghost var n := CompleteTuples(tuples);
      while line < |tuples|
        invariant line <= n
        invariant store == RunBothEnds(old(store), AllStated(tuples[..line], digest))
        invariant old(Consistent()) ==> Consistent()
      {
        if !Complete(tuples[line]) {
          assert line == n;
          break;
        }
        ReadTuple(tuples[line]);
        OneMoreTuple(old(store), tuples, line, digest);
        line := line + 1;
      }
      BothEndsInTurn(old(store), AllStated(tuples[..n], digest));
    }
  }

  // ---------------------------------------------------------------- runs

  function RunBothEnds(store: Store, us: seq<Update>): Store {
    if us == [] then store
    else
      var u := us[|us| - 1];
      Updated(Updated(RunBothEnds(store, us[..|us| - 1]), u), Mirror(u))
  }

  lemma {:induction false} RunningBothEndsInTurn(store: Store, a: seq<Update>, b: seq<Update>)
    ensures RunBothEnds(store, a + b) == RunBothEnds(RunBothEnds(store, a), b)
  {
    if b == [] {
      assert a + b == a;
    } else {
      var b' := b[..|b| - 1];
      assert (a + b)[..|a + b| - 1] == a + b';
      RunningBothEndsInTurn(store, a, b');
    }
  }

  lemma OneMoreTuple(store: Store, ts: seq<Tuple>, line: nat, digest: string -> string)
    requires line < |ts|
    ensures RunBothEnds(store, AllStated(ts[..line + 1], digest))
         == RunBothEnds(RunBothEnds(store, AllStated(ts[..line], digest)), Stated(ts[line], digest))
  {
    assert ts[..line + 1][..line] == ts[..line];
    RunningBothEndsInTurn(store, AllStated(ts[..line], digest), Stated(ts[line], digest));
  }

  lemma FourBothEnds(store: Store, us: seq<Update>)
    requires |us| == 4
    ensures RunBothEnds(store, us)
         == EnteredTwice(EnteredTwice(EnteredTwice(EnteredTwice(store, us[0]), us[1]), us[2]), us[3])
  {
    assert us == [us[0]] + [us[1]] + [us[2]] + [us[3]];
    RunningBothEndsInTurn(store, [us[0]] + [us[1]] + [us[2]], [us[3]]);
    RunningBothEndsInTurn(store, [us[0]] + [us[1]], [us[2]]);
    RunningBothEndsInTurn(store, [us[0]], [us[1]]);
  }

  function EnteredTwice(store: Store, u: Update): Store {
    Updated(Updated(store, u), Mirror(u))
  }

  lemma {:induction false} BothEndsInTurn(store: Store, us: seq<Update>)
    ensures RunBothEnds(store, us) == Run(store, BothEnds(us))
  {
    if us != [] {
      var front, u := us[..|us| - 1], us[|us| - 1];
      BothEndsInTurn(store, front);
      assert BothEnds(us) == BothEnds(front) + [u] + [Mirror(u)];
    }
  }

  // ---------------------------------------------------------------- inverse associations

  ghost predicate Names(list: seq<Alias>, name: string) {
    exists i :: 0 <= i < |list| && list[i].fwd == name
  }

  /** The alias a of an association has a counterpart from the other end, named as a's backward name. */
  ghost predicate Mirrored(store: Store, key: Key, a: Alias) {
    Names(ListOf(store, Inverse(key)), a.bwd)
  }

  ghost predicate HasInverses(store: Store) {
    forall key, i | key in store && 0 <= i < |store[key]| :: Mirrored(store, key, store[key][i])
  }

  ghost predicate NoFileIsFull(store: Store) {
    forall key | key in store :: |store[key]| < MAX_ASSOC_ARRAY
  }

  // An update keeps every name and loses no entry.
  lemma UpdatesKeepNames(store: Store, u: Update, key: Key)
    ensures |ListOf(store, key)| <= |ListOf(Updated(store, u), key)|
    ensures forall i | 0 <= i < |ListOf(store, key)| ::
              && ListOf(Updated(store, u), key)[i].fwd == ListOf(store, key)[i].fwd
              && ListOf(Updated(store, u), key)[i].bwd == ListOf(store, key)[i].bwd
    ensures forall name | Names(ListOf(store, key), name) :: Names(ListOf(Updated(store, u), key), name)
  {
    var before, after := ListOf(store, key), ListOf(Updated(store, u), key);
    assert forall i | 0 <= i < |before| :: after[i].fwd == before[i].fwd;
  }

  // What an update adds is the name it carries.
  lemma UpdatesAddTheirName(store: Store, u: Update, key: Key, i: nat)
    requires i < |ListOf(Updated(store, u), key)|
    ensures var a := ListOf(Updated(store, u), key)[i];
            || (i < |ListOf(store, key)| && ListOf(store, key)[i].fwd == a.fwd && ListOf(store, key)[i].bwd == a.bwd)
            || (key == u.key && a.fwd == u.fwd && a.bwd == u.bwd)
  {
  }

  lemma UpdatesEnterTheirName(store: Store, u: Update)
    requires u.fwd != "" && |ListOf(Updated(store, u), u.key)| < MAX_ASSOC_ARRAY
    ensures Names(ListOf(Updated(store, u), u.key), u.fwd)
  {
    var after, i := ListOf(Updated(store, u), u.key), IndexOf(ListOf(store, u.key), u.fwd);
    assert after[i].fwd == u.fwd;
  }

  /** Entering an association from both ends keeps every alias mirrored. */
  lemma BothEndsKeepInverses(store: Store, u: Update)
    requires HasInverses(store) && u.fwd != "" && u.bwd != ""
    requires NoFileIsFull(Updated(Updated(store, u), Mirror(u)))
    ensures HasInverses(Updated(Updated(store, u), Mirror(u)))
  {
    var once := Updated(store, u);
    var after := Updated(once, Mirror(u));
    UpdatesEnterTheirName(once, Mirror(u));
    UpdatesKeepNames(once, Mirror(u), u.key);
    assert u.key in after;
    UpdatesEnterTheirName(store, u);
    forall key, i | key in after && 0 <= i < |after[key]| ensures Mirrored(after, key, after[key][i]) {
      CounterpartAfterBothEnds(store, u, key, i);
    }
  }

  lemma CounterpartAfterBothEnds(store: Store, u: Update, key: Key, i: nat)
    requires HasInverses(store)
    requires var after := Updated(Updated(store, u), Mirror(u));
             && Names(ListOf(after, u.key), u.fwd) && Names(ListOf(after, Inverse(u.key)), u.bwd)
             && key in after && i < |after[key]|
    ensures var after := Updated(Updated(store, u), Mirror(u));
            Mirrored(after, key, after[key][i])
  {
    var once := Updated(store, u);
    UpdatesAddTheirName(once, Mirror(u), key, i);
    if i < |ListOf(once, key)| {
      UpdatesAddTheirName(store, u, key, i);
    }
    if i < |ListOf(store, key)| {
      assert Mirrored(store, key, store[key][i]);
      UpdatesKeepNames(store, u, Inverse(key));
      UpdatesKeepNames(once, Mirror(u), Inverse(key));
      UpdatesKeepNames(store, u, key);
      UpdatesKeepNames(once, Mirror(u), key);
    }
  }

  lemma FullFilesStayFull(store: Store, u: Update)
    requires NoFileIsFull(Updated(store, u))
    ensures NoFileIsFull(store)
  {
    forall key | key in store ensures |store[key]| < MAX_ASSOC_ARRAY {
      UpdatesKeepNames(store, u, key);
      assert key in Updated(store, u);
    }
  }

  ghost predicate Named(us: seq<Update>) {
    forall k | 0 <= k < |us| :: us[k].fwd != "" && us[k].bwd != ""
  }

  lemma {:induction false} RunsKeepInverses(store: Store, us: seq<Update>)
    requires HasInverses(store) && Named(us) && NoFileIsFull(RunBothEnds(store, us))
    ensures HasInverses(RunBothEnds(store, us))
  {
    if us != [] {
      var front, u := us[..|us| - 1], us[|us| - 1];
      var once := Updated(RunBothEnds(store, front), u);
      FullFilesStayFull(once, Mirror(u));
      FullFilesStayFull(RunBothEnds(store, front), u);
      RunsKeepInverses(store, front);
      BothEndsKeepInverses(RunBothEnds(store, front), u);
    }
  }

  lemma {:induction false} StatedIsNamed(ts: seq<Tuple>, digest: string -> string)
    requires forall k | 0 <= k < |ts| :: Complete(ts[k])
    ensures Named(AllStated(ts, digest))
  {
    if ts != [] {
      StatedIsNamed(ts[..|ts| - 1], digest);
      assert Complete(ts[|ts| - 1]);
      assert Named(Stated(ts[|ts| - 1], digest));
    }
  }

  /** Reading tuples keeps every alias mirrored at the other end while no file is full. */
  lemma ReadingKeepsInverses(store: Store, ts: seq<Tuple>, digest: string -> string)
    requires HasInverses(store) && NoFileIsFull(Run(store, Calls(ts, digest)))
    ensures HasInverses(Run(store, Calls(ts, digest)))
  {
    var read := ts[..CompleteTuples(ts)];
    StatedIsNamed(read, digest);
    BothEndsInTurn(store, AllStated(read, digest));
    RunsKeepInverses(store, AllStated(read, digest));
  }

  // ---------------------------------------------------------------- when full files lose an inverse

  /**
   * Entering this association from both ends leaves an alias without its counterpart: neither name
   * is there yet, and there is room for just one of the two.
   */
  ghost predicate Loses(store: Store, u: Update) {
    var here, there := ListOf(store, u.key), ListOf(store, Inverse(u.key));
    && !Names(here, u.fwd) && !Names(there, u.bwd)
    && if u.key == Inverse(u.key) then u.fwd != u.bwd && |here| + 1 == MAX_ASSOC_ARRAY
       else (|here| >= MAX_ASSOC_ARRAY) != (|there| >= MAX_ASSOC_ARRAY)
  }

  lemma NamesAfterUpdate(store: Store, u: Update, name: string)
    requires u.fwd != ""
    ensures Names(ListOf(Updated(store, u), u.key), name)
       <==> Names(ListOf(store, u.key), name) || (name == u.fwd && |ListOf(store, u.key)| < MAX_ASSOC_ARRAY)
    ensures |ListOf(Updated(store, u), u.key)| == |ListOf(store, u.key)|
         + if !Names(ListOf(store, u.key), u.fwd) && |ListOf(store, u.key)| < MAX_ASSOC_ARRAY then 1 else 0
  {
    var list, after := ListOf(store, u.key), ListOf(Updated(store, u), u.key);
    var at := IndexOf(list, u.fwd);
    assert forall i | 0 <= i < |list| :: after[i].fwd == list[i].fwd;
    assert at < |list| <==> Names(list, u.fwd);
    if at == |list| < MAX_ASSOC_ARRAY {
      assert after[|list|].fwd == u.fwd;
    }
  }

  /** Some alias has no counterpart, and the file it would stand in is full. */
  ghost predicate Stuck(store: Store) {
    exists key, i ::
      && key in store && 0 <= i < |store[key]| && !Mirrored(store, key, store[key][i])
      && |ListOf(store, Inverse(key))| >= MAX_ASSOC_ARRAY
  }

  /** Nothing that is entered later helps. */
  lemma StuckStays(store: Store, u: Update)
    requires Stuck(store)
    ensures Stuck(Updated(store, u))
  {
    var key, i :|
      && key in store && 0 <= i < |store[key]| && !Mirrored(store, key, store[key][i])
      && |ListOf(store, Inverse(key))| >= MAX_ASSOC_ARRAY;
    var after := Updated(store, u);
    UpdatesKeepNames(store, u, key);
    UpdatesKeepNames(store, u, Inverse(key));
    if u.fwd != "" {
      if Inverse(key) == u.key {
        NamesAfterUpdate(store, u, store[key][i].bwd);
      }
    }
    assert key in after && !Mirrored(after, key, after[key][i]);
  }

  lemma LosingIsStuck(store: Store, u: Update)
    requires u.fwd != "" && u.bwd != "" && Loses(store, u)
    ensures Stuck(EnteredTwice(store, u))
  {
    var here, there := ListOf(store, u.key), ListOf(store, Inverse(u.key));
    var once, after := Updated(store, u), EnteredTwice(store, u);
    if |here| < MAX_ASSOC_ARRAY {
      UpdatesKeepNames(once, Mirror(u), u.key);
      NamesAfterUpdate(store, u, u.bwd);
      NamesAfterUpdate(once, Mirror(u), u.bwd);
      assert u.key in after && !Mirrored(after, u.key, after[u.key][|here|]);
    } else {
      NamesAfterUpdate(store, u, u.fwd);
      assert Inverse(u.key) in after && !Mirrored(after, Inverse(u.key), after[Inverse(u.key)][|there|]);
    }
  }

  // Every alias after both entries is an old one, or one of the two new ones.
  lemma CounterpartUnlessLost(store: Store, u: Update, key: Key, i: nat)
    requires HasInverses(store) && u.fwd != "" && u.bwd != "" && !Loses(store, u)
    requires key in EnteredTwice(store, u) && i < |EnteredTwice(store, u)[key]|
    ensures Mirrored(EnteredTwice(store, u), key, EnteredTwice(store, u)[key][i])
  {
    var here, there := ListOf(store, u.key), ListOf(store, Inverse(u.key));
    var once, after := Updated(store, u), EnteredTwice(store, u);
    UpdatesKeepNames(store, u, key);
    UpdatesKeepNames(once, Mirror(u), key);
    UpdatesKeepNames(store, u, Inverse(key));
    UpdatesKeepNames(once, Mirror(u), Inverse(key));
    if i < |ListOf(store, key)| {
      assert Mirrored(store, key, store[key][i]);
    } else {
      NewCounterpart(store, u, key, i);
    }
  }

  lemma NewCounterpart(store: Store, u: Update, key: Key, i: nat)
    requires u.fwd != "" && u.bwd != "" && !Loses(store, u)
    requires key in EnteredTwice(store, u) && |ListOf(store, key)| <= i < |EnteredTwice(store, u)[key]|
    ensures Mirrored(EnteredTwice(store, u), key, EnteredTwice(store, u)[key][i])
  {
    var once := Updated(store, u);
    UpdatesKeepNames(once, Mirror(u), key);
    UpdatesAddTheirName(once, Mirror(u), key, i);
    NamesAfterUpdate(store, u, u.fwd);
    NamesAfterUpdate(store, u, u.bwd);
    NamesAfterUpdate(once, Mirror(u), u.bwd);
    NamesAfterUpdate(once, Mirror(u), u.fwd);
    if i < |ListOf(once, key)| {
      UpdatesAddTheirName(store, u, key, i);
    }
  }

  /** Entering an association from both ends keeps every alias mirrored exactly unless full files lose one. */
  lemma FullFilesLoseInverses(store: Store, u: Update)
    requires HasInverses(store) && u.fwd != "" && u.bwd != ""
    ensures HasInverses(EnteredTwice(store, u)) <==> !Loses(store, u)
  {
    if Loses(store, u) {
      LosingIsStuck(store, u);
    } else {
      var after := EnteredTwice(store, u);
      forall key, i | key in after && 0 <= i < |after[key]| ensures Mirrored(after, key, after[key][i]) {
        CounterpartUnlessLost(store, u, key, i);
      }
    }
  }

  /** No entry of the run loses an alias. */
  ghost predicate NeverLoses(store: Store, us: seq<Update>) {
    us != [] ==>
      && NeverLoses(store, us[..|us| - 1])
      && !Loses(RunBothEnds(store, us[..|us| - 1]), us[|us| - 1])
  }

  lemma OneEntry(store: Store, u: Update)
    requires (HasInverses(store) || Stuck(store)) && u.fwd != "" && u.bwd != ""
    ensures if HasInverses(store) && !Loses(store, u) then HasInverses(EnteredTwice(store, u))
            else Stuck(EnteredTwice(store, u))
  {
    if Loses(store, u) {
      LosingIsStuck(store, u);
    } else if HasInverses(store) {
      FullFilesLoseInverses(store, u);
    } else {
      StuckStays(store, u);
      StuckStays(Updated(store, u), Mirror(u));
    }
  }

  lemma {:induction false} RunsKeepInversesOrAreStuck(store: Store, us: seq<Update>)
    requires HasInverses(store) && Named(us)
    ensures if NeverLoses(store, us) then HasInverses(RunBothEnds(store, us)) else Stuck(RunBothEnds(store, us))
  {
    if us != [] {
      var front, u := us[..|us| - 1], us[|us| - 1];
      var before := RunBothEnds(store, front);
      RunsKeepInversesOrAreStuck(store, front);
      OneEntry(before, u);
    }
  }

  /** A stream keeps every alias mirrored exactly if no entry of it loses one; later ones cannot repair it. */
  lemma ReadingKeepsInversesExactly(store: Store, ts: seq<Tuple>, digest: string -> string)
    requires HasInverses(store)
    ensures HasInverses(Run(store, Calls(ts, digest)))
       <==> NeverLoses(store, AllStated(ts[..CompleteTuples(ts)], digest))
  {
    var read := ts[..CompleteTuples(ts)];
    var us := AllStated(read, digest);
    StatedIsNamed(read, digest);
    BothEndsInTurn(store, us);
    RunsKeepInversesOrAreStuck(store, us);
  }

  // ---------------------------------------------------------------- a stream that loses one

  /** One forward name, and backward names of growing length. */
  function Witness(i: nat): Tuple {
    Tuple("a", 1, "fwd", "b", seq(i + 1, _ => 'x'), "ctx", 0)
  }

  function Witnesses(n: nat): (ts: seq<Tuple>)
    ensures |ts| == n && forall k | 0 <= k < n :: Complete(ts[k])
  {
    if n == 0 then [] else Witnesses(n - 1) + [Witness(n - 1)]
  }

  const LAST_TUPLE := Tuple("a", 1, "new", "b", "name", "ctx", 0)

  lemma OtherTypesStay(store: Store, u: Update, key: Key)
    requires u.key.atype != key.atype && -u.key.atype != key.atype
    ensures ListOf(EnteredTwice(store, u), key) == ListOf(store, key)
  {
  }

  /** Of the four associations a tuple states, only the first concerns other types than the context's. */
  lemma ListsAfterATuple(store: Store, t: Tuple, digest: string -> string, key: Key)
    requires key.atype != GR_CONTEXT && key.atype != -GR_CONTEXT
    ensures ListOf(RunBothEnds(store, Stated(t, digest)), key) == ListOf(EnteredTwice(store, Stated(t, digest)[0]), key)
  {
    var us := Stated(t, digest);
    FourBothEnds(store, us);
    var s1 := EnteredTwice(store, us[0]);
    var s2 := EnteredTwice(s1, us[1]);
    OtherTypesStay(s1, us[1], key);
    OtherTypesStay(s2, us[2], key);
    OtherTypesStay(EnteredTwice(s2, us[2]), us[3], key);
  }

  /** One alias at most at this key, and n of growing length at its inverse. */
  ghost predicate Filled(here: seq<Alias>, there: seq<Alias>, n: nat) {
    && |here| <= 1 && (forall i | 0 <= i < |here| :: here[i].fwd == "fwd")
    && |there| == n && forall i | 0 <= i < n :: there[i].fwd == seq(i + 1, _ => 'x')
  }

  /** After n of them the file of the inverse association holds n aliases, up to its limit. */
  lemma {:induction false} WitnessesFill(n: nat, digest: string -> string)
    requires n <= MAX_ASSOC_ARRAY
    ensures var key := Key(digest("a"), 1, digest("b"));
            var store := RunBothEnds(map[], AllStated(Witnesses(n), digest));
            Filled(ListOf(store, key), ListOf(store, Inverse(key)), n)
  {
    if n == 0 {
      NoWitnesses(digest);
    } else {
      WitnessesFill(n - 1, digest);
      FilledByATuple(RunBothEnds(map[], AllStated(Witnesses(n - 1), digest)), n - 1, digest);
      OneMoreWitness(n, digest);
    }
  }

  lemma NoWitnesses(digest: string -> string)
    ensures RunBothEnds(map[], AllStated(Witnesses(0), digest)) == map[]
  {
  }

  lemma OneMoreWitness(n: nat, digest: string -> string)
    requires n > 0
    ensures RunBothEnds(map[], AllStated(Witnesses(n), digest))
         == RunBothEnds(RunBothEnds(map[], AllStated(Witnesses(n - 1), digest)), Stated(Witness(n - 1), digest))
  {
    assert Witnesses(n)[..n - 1] == Witnesses(n - 1);
    RunningBothEndsInTurn(map[], AllStated(Witnesses(n - 1), digest), Stated(Witness(n - 1), digest));
  }

  lemma FilledByATuple(store: Store, n: nat, digest: string -> string)
    requires var key := Key(digest("a"), 1, digest("b"));
             n < MAX_ASSOC_ARRAY && Filled(ListOf(store, key), ListOf(store, Inverse(key)), n)
    ensures var key := Key(digest("a"), 1, digest("b"));
            var after := RunBothEnds(store, Stated(Witness(n), digest));
            Filled(ListOf(after, key), ListOf(after, Inverse(key)), n + 1)
  {
    var key, t := Key(digest("a"), 1, digest("b")), Witness(n);
    ListsAfterATuple(store, t, digest, key);
    ListsAfterATuple(store, t, digest, Inverse(key));
    OneWitnessMore(store, Stated(t, digest)[0], n);
  }

  lemma OneWitnessMore(store: Store, u: Update, n: nat)
    requires u.key.atype == 1 && u.fwd == "fwd" && u.bwd == seq(n + 1, _ => 'x') && n < MAX_ASSOC_ARRAY
    requires Filled(ListOf(store, u.key), ListOf(store, Inverse(u.key)), n)
    ensures var after := EnteredTwice(store, u); Filled(ListOf(after, u.key), ListOf(after, Inverse(u.key)), n + 1)
  {
    var there := ListOf(store, Inverse(u.key));
    forall i | 0 <= i < n ensures there[i].fwd != u.bwd {
      assert |there[i].fwd| == i + 1;
    }
  }

  lemma {:induction false} AllAreComplete(ts: seq<Tuple>)
    requires forall k | 0 <= k < |ts| :: Complete(ts[k])
    ensures CompleteTuples(ts) == |ts|
  {
    if ts != [] {
      assert forall k | 0 <= k < |ts[1..]| :: ts[1..][k] == ts[k + 1];
      AllAreComplete(ts[1..]);
    }
  }

  /** Read into an empty store, 1025 complete tuples leave an alias without its counterpart. */
  lemma AStreamThatLosesInverses(digest: string -> string)
    ensures var ts := Witnesses(MAX_ASSOC_ARRAY) + [LAST_TUPLE];
            CompleteTuples(ts) == |ts| && HasInverses(map[]) && !HasInverses(Run(map[], Calls(ts, digest)))
  {
    var ts := Witnesses(MAX_ASSOC_ARRAY) + [LAST_TUPLE];
    AllAreComplete(ts);
    assert ts[..|ts|] == ts;
    var us := AllStated(ts, digest);
    var front := AllStated(Witnesses(MAX_ASSOC_ARRAY), digest);
    var store := RunBothEnds(map[], front);
    assert ts[..|ts| - 1] == Witnesses(MAX_ASSOC_ARRAY);
    WitnessesFill(MAX_ASSOC_ARRAY, digest);
    BothEndsInTurn(map[], us);
    RunningBothEndsInTurn(map[], front, Stated(LAST_TUPLE, digest));
    LastTupleIsStuck(store, digest);
  }

  lemma LastTupleIsStuck(store: Store, digest: string -> string)
    requires var key := Key(digest("a"), 1, digest("b"));
             Filled(ListOf(store, key), ListOf(store, Inverse(key)), MAX_ASSOC_ARRAY)
    ensures Stuck(RunBothEnds(store, Stated(LAST_TUPLE, digest)))
  {
    var us := Stated(LAST_TUPLE, digest);
    var there := ListOf(store, Inverse(us[0].key));
    forall i | 0 <= i < |there| ensures there[i].fwd != "name" {
      assert there[i].fwd[0] == 'x' && "name"[0] == 'n';
    }
    LosingIsStuck(store, us[0]);
    FourBothEnds(store, us);
    var s1 := EnteredTwice(store, us[0]);
    StuckThroughBothEnds(s1, us[1]);
    StuckThroughBothEnds(EnteredTwice(s1, us[1]), us[2]);
    StuckThroughBothEnds(EnteredTwice(EnteredTwice(s1, us[1]), us[2]), us[3]);
  }

  lemma StuckThroughBothEnds(store: Store, u: Update)
    requires Stuck(store)
    ensures Stuck(EnteredTwice(store, u))
  {
    StuckStays(store, u);
    StuckStays(Updated(store, u), Mirror(u));
  }

  // ---------------------------------------------------------------- what a tuple leaves in the store

  /** A new association stands last at both ends, with its names, its context and the first weight. */
  lemma NewAssociationsAreAppended(store: Store, t: Tuple, digest: string -> string)
    requires Complete(t) && t.atype != 0 && t.atype != GR_CONTEXT && t.atype != -GR_CONTEXT
    ensures var key, back := Key(digest(t.from), t.atype, digest(t.to)), Key(digest(t.to), -t.atype, digest(t.from));
            var after := RunBothEnds(store, Stated(t, digest));
            && (!Names(ListOf(store, key), t.afwd) && |ListOf(store, key)| < MAX_ASSOC_ARRAY ==>
                  ListOf(after, key) == ListOf(store, key) + [Alias(t.afwd, t.abwd, t.icontext, 0.7, t.seen)])
            && (!Names(ListOf(store, back), t.abwd) && |ListOf(store, back)| < MAX_ASSOC_ARRAY ==>
                  ListOf(after, back) == ListOf(store, back) + [Alias(t.abwd, t.afwd, t.icontext, 0.7, t.seen)])
  {
    var u := Stated(t, digest)[0];
    ListsAfterATuple(store, t, digest, u.key);
    ListsAfterATuple(store, t, digest, Inverse(u.key));
    NewAtBothEnds(store, u);
  }

  lemma NewAtBothEnds(store: Store, u: Update)
    requires u.fwd != "" && u.bwd != "" && u.key.atype != 0
    ensures var here, there := ListOf(store, u.key), ListOf(store, Inverse(u.key));
            && (!Names(here, u.fwd) && |here| < MAX_ASSOC_ARRAY ==>
                  ListOf(EnteredTwice(store, u), u.key) == here + [Alias(u.fwd, u.bwd, u.context, 0.7, u.seen)])
            && (!Names(there, u.bwd) && |there| < MAX_ASSOC_ARRAY ==>
                  ListOf(EnteredTwice(store, u), Inverse(u.key))
                  == there + [Alias(u.bwd, u.fwd, u.context, 0.7, u.seen)])
  {
  }

  /** The association is stored, and has the alias unless its file is full. */
  ghost predicate Filed(store: Store, concept1: string, atype: int, concept2: string, name: string) {
    var key := Key(concept1, atype, concept2);
    key in store && (Names(store[key], name) || |store[key]| >= MAX_ASSOC_ARRAY)
  }

  lemma {:induction false} StatedAmongAll(ts: seq<Tuple>, digest: string -> string, k: nat, u: Update)
    requires k < |ts| && u in Stated(ts[k], digest)
    ensures u in AllStated(ts, digest)
  {
    if k < |ts| - 1 {
      StatedAmongAll(ts[..|ts| - 1], digest, k, u);
    }
  }

  lemma {:induction false} BothEndsAmongAll(us: seq<Update>, u: Update)
    requires u in us
    ensures u in BothEnds(us) && Mirror(u) in BothEnds(us)
  {
    var front, last := us[..|us| - 1], us[|us| - 1];
    assert us == front + [last];
    if u == last {
      var calls := BothEnds(us);
      assert calls[|calls| - 2] == u && calls[|calls| - 1] == Mirror(u);
    } else {
      BothEndsAmongAll(front, u);
    }
  }

  lemma {:induction false} ReadUpTo(ts: seq<Tuple>, k: nat)
    requires k < |ts| && forall j | 0 <= j <= k :: Complete(ts[j])
    ensures k < CompleteTuples(ts)
  {
    if k > 0 {
      assert forall j | 0 <= j <= k - 1 :: ts[1..][j] == ts[j + 1];
      ReadUpTo(ts[1..], k - 1);
    }
  }

  lemma StatedAmongCalls(ts: seq<Tuple>, digest: string -> string, k: nat, u: Update)
    requires k < CompleteTuples(ts) && u in Stated(ts[k], digest)
    ensures u in Calls(ts, digest) && Mirror(u) in Calls(ts, digest)
  {
    var read := ts[..CompleteTuples(ts)];
    assert read[k] == ts[k];
    StatedAmongAll(read, digest, k, u);
    BothEndsAmongAll(AllStated(read, digest), u);
  }

  lemma FiledFromBothEnds(store: Store, ts: seq<Tuple>, digest: string -> string, k: nat, u: Update)
    requires k < CompleteTuples(ts) && u in Stated(ts[k], digest) && u.fwd != "" && u.bwd != ""
    ensures var after := Run(store, Calls(ts, digest));
            && Filed(after, u.key.concept1, u.key.atype, u.key.concept2, u.fwd)
            && Filed(after, u.key.concept2, -u.key.atype, u.key.concept1, u.bwd)
  {
    StatedAmongCalls(ts, digest, k, u);
    CallsAreFiled(store, Calls(ts, digest), u);
    CallsAreFiled(store, Calls(ts, digest), Mirror(u));
  }

  lemma CallsAreFiled(store: Store, calls: seq<Update>, u: Update)
    requires u in calls && u.fwd != ""
    ensures Filed(Run(store, calls), u.key.concept1, u.key.atype, u.key.concept2, u.fwd)
  {
    var i :| 0 <= i < |calls| && calls[i] == u;
    RunsSettle(store, calls, i);
  }

  /**
   * After reading, every tuple in front of the first incomplete one has its association and the
   * inverse stored. Both topics are tied to the context and back, and the context to all contexts.
   */
  lemma EveryTupleIsFiled(store: Store, ts: seq<Tuple>, digest: string -> string, k: nat)
    requires k < |ts| && forall j | 0 <= j <= k :: Complete(ts[j])
    ensures var t, after := ts[k], Run(store, Calls(ts, digest));
            var from, to, context, all := digest(t.from), digest(t.to), digest(t.icontext), digest(ALL_CONTEXTS);
            && Filed(after, from, t.atype, to, t.afwd) && Filed(after, to, -t.atype, from, t.abwd)
            && Filed(after, from, -GR_CONTEXT, context, APPEARS) && Filed(after, context, GR_CONTEXT, from, MENTIONS)
            && Filed(after, to, -GR_CONTEXT, context, APPEARS) && Filed(after, context, GR_CONTEXT, to, MENTIONS)
            && Filed(after, all, GR_CONTEXT, context, "contains")
            && Filed(after, context, -GR_CONTEXT, all, "is contained by")
  {
    ReadUpTo(ts, k);
    TopicsAreAssociated(store, ts, digest, k);
    ContextIsTied(store, ts, digest, k);
  }

  lemma TopicsAreAssociated(store: Store, ts: seq<Tuple>, digest: string -> string, k: nat)
    requires k < CompleteTuples(ts)
    ensures var t, after := ts[k], Run(store, Calls(ts, digest));
            && Filed(after, digest(t.from), t.atype, digest(t.to), t.afwd)
            && Filed(after, digest(t.to), -t.atype, digest(t.from), t.abwd)
  {
    assert Complete(ts[k]);
    FiledFromBothEnds(store, ts, digest, k, Stated(ts[k], digest)[0]);
  }

  lemma ContextIsTied(store: Store, ts: seq<Tuple>, digest: string -> string, k: nat)
    requires k < CompleteTuples(ts)
    ensures var t, after := ts[k], Run(store, Calls(ts, digest));
            var from, to, context, all := digest(t.from), digest(t.to), digest(t.icontext), digest(ALL_CONTEXTS);
            && Filed(after, from, -GR_CONTEXT, context, APPEARS) && Filed(after, context, GR_CONTEXT, from, MENTIONS)
            && Filed(after, to, -GR_CONTEXT, context, APPEARS) && Filed(after, context, GR_CONTEXT, to, MENTIONS)
            && Filed(after, all, GR_CONTEXT, context, "contains")
            && Filed(after, context, -GR_CONTEXT, all, "is contained by")
  {
    var us := Stated(ts[k], digest);
    FiledFromBothEnds(store, ts, digest, k, us[1]);
    FiledFromBothEnds(store, ts, digest, k, us[2]);
    FiledFromBothEnds(store, ts, digest, k, us[3]);
  }

  // ---------------------------------------------------------------- reading again

  ghost predicate SameNames(a: seq<Alias>, b: seq<Alias>) {
    && |a| == |b|
    && forall i | 0 <= i < |a| :: a[i].fwd == b[i].fwd && a[i].bwd == b[i].bwd && a[i].icontext == b[i].icontext
  }

  /** The same associations with the same aliases; weights and times may differ. */
  ghost predicate SameAliases(a: Store, b: Store) {
    a.Keys == b.Keys && forall key | key in a.Keys :: SameNames(a[key], b[key])
  }

  /** The update has nothing to add: its name is there or there is no room. */
  ghost predicate Settled(store: Store, u: Update) {
    u.fwd == "" || (u.key in store && (Names(store[u.key], u.fwd) || |store[u.key]| >= MAX_ASSOC_ARRAY))
  }

  lemma UpdatesSettle(store: Store, u: Update)
    ensures Settled(Updated(store, u), u)
  {
    if u.fwd != "" {
      var list := ListOf(store, u.key);
      var i := IndexOf(list, u.fwd);
      assert i < |list| || |list| < MAX_ASSOC_ARRAY ==> Updated(store, u)[u.key][i].fwd == u.fwd;
    }
  }

  lemma SettledStaysSettled(store: Store, u: Update, v: Update)
    requires Settled(store, v)
    ensures Settled(Updated(store, u), v)
  {
    UpdatesKeepNames(store, u, v.key);
  }

  lemma {:induction false} RunsSettle(store: Store, us: seq<Update>, k: nat)
    requires k < |us|
    ensures Settled(Run(store, us), us[k])
  {
    var front, u := us[..|us| - 1], us[|us| - 1];
    if k == |us| - 1 {
      UpdatesSettle(Run(store, front), u);
    } else {
      RunsSettle(store, front, k);
      SettledStaysSettled(Run(store, front), u, us[k]);
    }
  }

  lemma {:induction false} SettledRunsAddNothing(store: Store, us: seq<Update>)
    requires forall k | 0 <= k < |us| :: Settled(store, us[k])
    ensures SameAliases(Run(store, us), store)
  {
    if us != [] {
      var front, u := us[..|us| - 1], us[|us| - 1];
      assert forall k | 0 <= k < |front| :: front[k] == us[k];
      SettledRunsAddNothing(store, front);
    }
  }

  /** Reading the same tuples again adds no association and no alias, full files or not. */
  lemma RereadingAddsNothing(store: Store, ts: seq<Tuple>, digest: string -> string)
    ensures SameAliases(Run(Run(store, Calls(ts, digest)), Calls(ts, digest)), Run(store, Calls(ts, digest)))
  {
    var calls := Calls(ts, digest);
    forall k | 0 <= k < |calls| ensures Settled(Run(store, calls), calls[k]) {
      RunsSettle(store, calls, k);
    }
    SettledRunsAddNothing(Run(store, calls), calls);
  }

  // ---------------------------------------------------------------- weights

  function Power(n: nat): real {
    if n == 0 then 1.0 else 0.4 * Power(n - 1)
  }

  /** How often the alias was reported. */
  function Sightings(us: seq<Update>, key: Key, fwd: string): nat {
    if us == [] then 0
    else
      var u := us[|us| - 1];
      Sightings(us[..|us| - 1], key, fwd) + if u.key == key && u.fwd == fwd then 1 else 0
  }

  /** An alias reported n + 1 times weighs 1 - 0.3 * 0.4^n; one never reported is not there. */
  lemma {:induction false} WeightCountsSightings(us: seq<Update>, key: Key, fwd: string)
    requires fwd != ""
    ensures var list := ListOf(Run(map[], us), key);
            var i, n := IndexOf(list, fwd), Sightings(us, key, fwd);
            && (i < |list| ==> n > 0 && list[i].weight == 1.0 - 0.3 * Power(n - 1))
            && (i == |list| ==> n == 0 || |list| >= MAX_ASSOC_ARRAY)
  {
    if us != [] {
      var front, u := us[..|us| - 1], us[|us| - 1];
      WeightCountsSightings(front, key, fwd);
      IndexAfterUpdate(Run(map[], front), u, key, fwd);
    }
  }

  lemma IndexAfterUpdate(store: Store, u: Update, key: Key, fwd: string)
    requires fwd != ""
    ensures var list, after := ListOf(store, key), ListOf(Updated(store, u), key);
            var i := IndexOf(list, fwd);
            && |list| <= |after|
            && if i < |list| then
                 && IndexOf(after, fwd) == i
                 && after[i].weight == if u.key == key && u.fwd == fwd then 0.6 + 0.4 * list[i].weight
                                       else list[i].weight
               else if u.key == key && u.fwd == fwd && |list| < MAX_ASSOC_ARRAY then
                 IndexOf(after, fwd) == i < |after| && after[i].weight == 0.7
               else IndexOf(after, fwd) == |after|
  {
    var list, after := ListOf(store, key), ListOf(Updated(store, u), key);
    var i := IndexOf(list, fwd);
    UpdatesKeepNames(store, u, key);
    if i == |list| < MAX_ASSOC_ARRAY && u.key == key && u.fwd == fwd {
      assert after == list + [Alias(u.fwd, u.bwd, u.context, 0.7, u.seen)];
      assert after[i].fwd == fwd && forall k | 0 <= k < i :: after[k].fwd != fwd;
    }
  }

  lemma {:induction false} NamesAreDistinct(us: seq<Update>, key: Key, i: nat, j: nat)
    requires i < j < |ListOf(Run(map[], us), key)|
    ensures ListOf(Run(map[], us), key)[i].fwd != ListOf(Run(map[], us), key)[j].fwd
  {
    if us != [] {
      var front, u := us[..|us| - 1], us[|us| - 1];
      var before := ListOf(Run(map[], front), key);
      UpdatesKeepNames(Run(map[], front), u, key);
      if j < |before| {
        NamesAreDistinct(front, key, i, j);
      }
    }
  }

  lemma AliasesAreFirstOfTheirName(us: seq<Update>, key: Key, i: nat)
    requires i < |ListOf(Run(map[], us), key)|
    ensures var list := ListOf(Run(map[], us), key);
            list[i].fwd != "" && IndexOf(list, list[i].fwd) == i
  {
    var list := ListOf(Run(map[], us), key);
    forall k | 0 <= k < i ensures list[k].fwd != list[i].fwd {
      NamesAreDistinct(us, key, k, i);
    }
  }

  /** Every alias of every association: its name occurs once, and its weight tells how often it was seen. */
  lemma EveryAliasIsWeighed(us: seq<Update>, key: Key, i: nat)
    requires i < |ListOf(Run(map[], us), key)|
    ensures var a := ListOf(Run(map[], us), key)[i];
            && Sightings(us, key, a.fwd) > 0 && a.weight == 1.0 - 0.3 * Power(Sightings(us, key, a.fwd) - 1)
            && 0.7 <= a.weight < 1.0
  {
    AliasesAreFirstOfTheirName(us, key, i);
    var fwd := ListOf(Run(map[], us), key)[i].fwd;
    WeightCountsSightings(us, key, fwd);
  }
}
