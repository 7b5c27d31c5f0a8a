// Heap-allocated singly linked lists of items, after item.c.
module ItemLists {
  import opened FiniteSets
  import opened Options

  class Item {
    var name: string
    var classes: Option<string>
    var counter: int
    var time: int
    var next: Item?

    constructor (name: string, classes: Option<string>, counter: int, time: int, next: Item?)
      ensures this.name == name && this.classes == classes && this.counter == counter
      ensures this.time == time && this.next == next
    {
      this.name, this.classes, this.counter, this.time, this.next := name, classes, counter, time, next;
    }
  }

  ghost function At(nodes: seq<Item>, i: nat): (node: Item?)
    ensures node != null ==> node in nodes
  {
    if i < |nodes| then nodes[i] else null
  }

  /** list is a finite acyclic list made of exactly these nodes, in this order. */
  ghost predicate Chain(list: Item?, nodes: seq<Item>)
    reads nodes`next
  {
    list == At(nodes, 0) && forall i {:trigger nodes[i].next} | 0 <= i < |nodes| :: nodes[i].next == At(nodes, i + 1)
  }

  lemma {:induction false} EqualNodesHaveEqualTails(list: Item?, nodes: seq<Item>, other: Item?, others: seq<Item>,
                                                   i: nat, j: nat)
    requires Chain(list, nodes) && Chain(other, others)
    requires i < |nodes| && j < |others| && nodes[i] == others[j]
    ensures |nodes| - i == |others| - j
    ensures nodes[|nodes| - 1] == others[|others| - 1]
    decreases |nodes| - i
  {
    assert At(nodes, i + 1) == nodes[i].next == others[j].next == At(others, j + 1);
    if i + 1 < |nodes| {
      EqualNodesHaveEqualTails(list, nodes, other, others, i + 1, j + 1);
    }
  }

  lemma ChainNodesAreDistinct(list: Item?, nodes: seq<Item>)
    requires Chain(list, nodes)
    ensures forall i, j | 0 <= i < j < |nodes| :: nodes[i] != nodes[j]
  {
    forall i, j | 0 <= i < j < |nodes| ensures nodes[i] != nodes[j] {
      if nodes[i] == nodes[j] {
        EqualNodesHaveEqualTails(list, nodes, list, nodes, i, j);
      }
    }
  }

  // ---------------------------------------------------------------- the shape of any list

  // Where the list goes after position i, when its last node links back to position lead.
  // A list that ends in NULL links back to the position just after its last node.
  function Succ(length: nat, lead: nat, i: nat): nat {
    if i + 1 < length then i + 1 else if i < length then lead else length
  }

  /** The nodes are distinct and the list runs through them, then either ends (lead == |nodes|)
      or goes round the cycle that starts at position lead for ever. */
  ghost predicate Shape(list: Item?, nodes: seq<Item>, lead: nat)
    reads nodes`next
  {
    && lead <= |nodes|
    && list == At(nodes, 0)
    && (forall i {:trigger nodes[i].next} | 0 <= i < |nodes| :: nodes[i].next == At(nodes, Succ(|nodes|, lead, i)))
    && (forall i, j | 0 <= i < j < |nodes| :: nodes[i] != nodes[j])
  }

  lemma ChainIsAShape(list: Item?, nodes: seq<Item>)
    requires Chain(list, nodes)
    ensures Shape(list, nodes, |nodes|)
  {
    ChainNodesAreDistinct(list, nodes);
  }

  ghost predicate Closed(region: set<Item>)
    reads region`next
  {
    forall item | item in region :: item.next == null || item.next in region
  }

  lemma {:induction false} DistinctNodesFit(nodes: seq<Item>, region: set<Item>)
    requires forall i, j | 0 <= i < j < |nodes| :: nodes[i] != nodes[j]
    requires forall i | 0 <= i < |nodes| :: nodes[i] in region
    ensures |nodes| <= |region|
  {
    if nodes != [] {
      var last := |nodes| - 1;
      DistinctNodesFit(nodes[..last], region - {nodes[last]});
    }
  }

  // Following the links inside a finite region either reaches NULL or meets an earlier node.
  lemma EveryListHasAShape(list: Item, region: set<Item>) returns (nodes: seq<Item>, lead: nat)
    requires Closed(region) && list in region
    ensures Shape(list, nodes, lead) && |nodes| <= |region|
  {
    nodes := [list];
    while nodes[|nodes| - 1].next != null && nodes[|nodes| - 1].next !in nodes
      invariant nodes != [] && nodes[0] == list
      invariant forall i | 0 <= i < |nodes| :: nodes[i] in region
      invariant forall i | 0 <= i < |nodes| - 1 :: nodes[i].next == nodes[i + 1]
      invariant forall i, j | 0 <= i < j < |nodes| :: nodes[i] != nodes[j]
      invariant |nodes| <= |region|
      decreases |region| - |nodes|
    {
      nodes := nodes + [nodes[|nodes| - 1].next];
      DistinctNodesFit(nodes, region);
    }
    if nodes[|nodes| - 1].next == null {
      lead := |nodes|;
    } else {
      lead :| 0 <= lead < |nodes| && nodes[lead] == nodes[|nodes| - 1].next;
    }
  }

  // ---------------------------------------------------------------- the cycle detector

  // The position reached after t steps.
  function Pos(length: nat, lead: nat, t: nat): (p: nat)
    requires lead <= length
    ensures p <= length
  {
    if t == 0 then 0 else Succ(length, lead, Pos(length, lead, t - 1))
  }

  // Turn t of the loop reports: the slow pointer is checked before and, on even turns, after
  // it moves.
  predicate ReportsAt(length: nat, lead: nat, t: nat)
    requires lead <= length && t > 0
  {
    var p := Pos(length, lead, t);
    p < length && (p == Pos(length, lead, (t - 1) / 2) || (t % 2 == 0 && p == Pos(length, lead, t / 2)))
  }

  ghost predicate ReportsWithin(length: nat, lead: nat, turns: nat)
    requires lead <= length
  {
    exists t :: 0 < t <= turns && ReportsAt(length, lead, t)
  }

  /** The loop of ListLen with the CYCLE_ macros switched on, left after a number of turns.
      found and bug stand for the two ProgrammingError reports, which do not stop the loop. */
  method ListLenTurns(list: Item?, turns: nat, ghost nodes: seq<Item>, ghost lead: nat)
    returns (count: nat, found: bool, bug: bool)
    requires Shape(list, nodes, lead)
    ensures !bug
    ensures found <==> ReportsWithin(|nodes|, lead, count)
    ensures count == turns || (count < turns && Pos(|nodes|, lead, count) == |nodes|)
    ensures count > 0 ==> Pos(|nodes|, lead, count - 1) < |nodes|
  {
    count := 0;
    found, bug := false, false;
    var ip := list;
    var slow := ip;
    var toggle := false;
    while ip != null && count < turns
      invariant count <= turns && !bug
      invariant ip == At(nodes, Pos(|nodes|, lead, count))
      invariant slow == At(nodes, Pos(|nodes|, lead, count / 2))
      invariant toggle <==> count % 2 == 1
      invariant count > 0 ==> Pos(|nodes|, lead, count - 1) < |nodes|
      invariant found <==> ReportsWithin(|nodes|, lead, count)
    {
      count := count + 1;
      TurnOnPositions(list, nodes, lead, count);
      var f, b;
      ip, slow, f, b := AdvanceAndCheck(ip, slow, toggle);
      toggle := !toggle;
      found, bug := found || f, bug || b;
    }
  }

  // One step of the loop variable followed by CYCLE_CHECK.
  method AdvanceAndCheck(ip: Item, slow: Item, toggle: bool)
    returns (lp: Item?, newslow: Item?, found: bool, bug: bool)
    ensures lp == ip.next
    ensures newslow == if toggle then slow.next else slow
    ensures found <==> lp != null && (lp == slow || lp == newslow)
    ensures bug <==> lp != null && newslow == null
  {
    lp := ip.next;
    newslow := slow;
    found, bug := CycleVerify(lp, newslow);
    if toggle {
      newslow := newslow.next;
      var f, b := CycleVerify(lp, newslow);
      found, bug := found || f, bug || b;
    }
  }

  // What turn t does, in terms of positions in the list.
  lemma TurnOnPositions(list: Item?, nodes: seq<Item>, lead: nat, t: nat)
    requires Shape(list, nodes, lead) && t > 0 && Pos(|nodes|, lead, t - 1) < |nodes|
    ensures var ip, slow := At(nodes, Pos(|nodes|, lead, t - 1)), At(nodes, Pos(|nodes|, lead, (t - 1) / 2));
            var lp, newslow := At(nodes, Pos(|nodes|, lead, t)), At(nodes, Pos(|nodes|, lead, t / 2));
            && ip != null && slow != null
            && ip.next == lp
            && newslow == (if t % 2 == 0 then slow.next else slow)
            && newslow != null
            && (ReportsAt(|nodes|, lead, t) <==> lp != null && (lp == slow || lp == newslow))
  {
    var n := |nodes|;
    EarlierPositionsAreNodes(n, lead, t - 1);
    var p, q, r := Pos(n, lead, t), Pos(n, lead, (t - 1) / 2), Pos(n, lead, t / 2);
  }

  method CycleVerify(lp: Item?, slow: Item?) returns (found: bool, bug: bool)
    ensures found <==> lp != null && lp == slow
    ensures bug <==> lp != null && slow == null
  {
    found, bug := false, false;
    if lp == null {
    } else if slow == null {
      bug := true;
    } else if lp == slow {
      found := true;
    }
  }

  lemma {:induction false} EarlierPositionsAreNodes(length: nat, lead: nat, t: nat)
    requires lead <= length && Pos(length, lead, t) < length
    ensures forall s: nat | s <= t :: Pos(length, lead, s) < length
  {
    if t > 0 {
      EarlierPositionsAreNodes(length, lead, t - 1);
    }
  }

  // ---------------------------------------------------------------- the detector is sound and complete

  lemma {:induction false} PositionsOfAnEndingList(length: nat, t: nat)
    ensures Pos(length, length, t) == if t < length then t else length
  {
    if t > 0 {
      PositionsOfAnEndingList(length, t - 1);
    }
  }

  lemma EndingListsAreNeverReported(length: nat, turns: nat)
    ensures !ReportsWithin(length, length, turns)
  {
    forall t | 0 < t <= turns ensures !ReportsAt(length, length, t) {
      PositionsOfAnEndingList(length, t);
      PositionsOfAnEndingList(length, (t - 1) / 2);
      PositionsOfAnEndingList(length, t / 2);
    }
  }

  lemma {:induction false} OneLap(length: nat, lead: nat, t: nat)
    requires lead < length && t >= lead
    ensures Pos(length, lead, t + (length - lead)) == Pos(length, lead, t)
    ensures Pos(length, lead, t) < length
  {
    if t == lead {
      StraightAhead(length, lead, lead);
      StraightAhead(length, lead, length - 1);
      assert Pos(length, lead, length) == lead;
    } else {
      OneLap(length, lead, t - 1);
    }
  }

  lemma {:induction false} StraightAhead(length: nat, lead: nat, t: nat)
    requires lead <= length && t < length
    ensures Pos(length, lead, t) == t
  {
    if t > 0 {
      StraightAhead(length, lead, t - 1);
    }
  }

  // The first whole number of laps, at least one, that is no less than steps.
  function WholeLaps(steps: nat, lap: nat): (r: nat)
    requires lap > 0
    ensures steps <= r && lap <= r
    ensures r < steps + lap || r == lap
  {
    if steps <= lap then lap else lap + WholeLaps(steps - lap, lap)
  }

  lemma {:induction false} LapsChangeNothing(length: nat, lead: nat, t: nat, steps: nat)
    requires lead < length && t >= lead
    ensures Pos(length, lead, t + WholeLaps(steps, length - lead)) == Pos(length, lead, t)
    ensures Pos(length, lead, t) < length
    decreases steps
  {
    var lap := length - lead;
    OneLap(length, lead, t);
    if steps > lap {
      LapsChangeNothing(length, lead, t + lap, steps - lap);
    }
  }

  // With a lead-in of length L and a cycle of length M, the report comes within 2*(L+M) turns.
  lemma CyclesAreReportedInTime(length: nat, lead: nat, turns: nat)
    requires lead < length && 2 * length <= turns
    ensures ReportsWithin(length, lead, turns)
  {
    var k := WholeLaps(lead, length - lead);
    LapsChangeNothing(length, lead, k, lead);
    assert Pos(length, lead, 2 * k) == Pos(length, lead, k);
    assert (2 * k) / 2 == k;
    assert ReportsAt(length, lead, 2 * k);
  }

  /** On an acyclic list nothing is reported, and the loop counts its nodes, however long it is let run. */
  method CheckedListLen(list: Item?, turns: nat, ghost nodes: seq<Item>)
    returns (count: nat, found: bool, bug: bool)
    requires Chain(list, nodes)
    ensures !found && !bug
    ensures count == if turns < |nodes| then turns else |nodes|
  {
    ChainIsAShape(list, nodes);
    count, found, bug := ListLenTurns(list, turns, nodes, |nodes|);
    EndingListsAreNeverReported(|nodes|, count);
    PositionsOfAnEndingList(|nodes|, count);
    if count > 0 {
      PositionsOfAnEndingList(|nodes|, count - 1);
    }
  }

  // No acyclic list starts where a cyclic one does.
  lemma CyclicListsDoNotEnd(list: Item?, nodes: seq<Item>, lead: nat, others: seq<Item>)
    requires Shape(list, nodes, lead) && lead < |nodes|
    ensures !Chain(list, others)
  {
    if Chain(list, others) {
      var t := 0;
      while t < |others|
        invariant t <= |others|
        invariant At(others, t) == At(nodes, Pos(|nodes|, lead, t))
        invariant Pos(|nodes|, lead, t) < |nodes|
      {
        assert others[t].next == At(others, t + 1);
        t := t + 1;
      }
      assert false;
    }
  }

  /** Run for twice as many turns as there are nodes to reach, the detector decides whether the
      list ends. */
  method DetectCycle(list: Item, turns: nat, ghost region: set<Item>) returns (found: bool)
    requires Closed(region) && list in region && 2 * |region| <= turns
    ensures found <==> !exists nodes: seq<Item> :: Chain(list, nodes)
  {
    ghost var nodes, lead := EveryListHasAShape(list, region);
    var count, bug;
    count, found, bug := ListLenTurns(list, turns, nodes, lead);
    if lead == |nodes| {
      EndingListsAreNeverReported(|nodes|, count);
      assert Chain(list, nodes);
    } else {
      CyclesAreReportedInTime(|nodes|, lead, count);
      forall others: seq<Item> ensures !Chain(list, others) {
        CyclicListsDoNotEnd(list, nodes, lead, others);
      }
    }
  }

  // ---------------------------------------------------------------- reading a list

  ghost function Names(nodes: seq<Item>): (names: seq<string>)
    reads nodes`name
    ensures |names| == |nodes|
    ensures forall i | 0 <= i < |nodes| :: names[i] == nodes[i].name
  {
    if nodes == [] then [] else Names(nodes[..|nodes| - 1]) + [nodes[|nodes| - 1].name]
  }

  method ListLen(list: Item?, ghost nodes: seq<Item>) returns (count: nat)
    requires Chain(list, nodes)
    ensures count == |nodes|
  {
    count := 0;
    var ip := list;
    while ip != null
      invariant count <= |nodes| && ip == At(nodes, count)
      decreases |nodes| - count
    {
      count := count + 1;
      ip := ip.next;
    }
  }

  method ItemIsInList(list: Item?, item: Item, ghost nodes: seq<Item>) returns (found: bool)
    requires Chain(list, nodes)
    ensures found <==> item in nodes
  {
    var ip := list;
    ghost var i := 0;
    while ip != null
      invariant i <= |nodes| && ip == At(nodes, i)
      invariant item !in nodes[..i]
      decreases |nodes| - i
    {
      if ip == item {
        return true;
      }
      ip, i := ip.next, i + 1;
    }
    return false;
  }

  /** The empty name is taken to be in every list. */
  method IsItemIn(list: Item?, item: string, ghost nodes: seq<Item>) returns (found: bool)
    requires Chain(list, nodes)
    ensures found <==> item == "" || item in Names(nodes)
  {
    if item == "" {
      return true;
    }
    var ptr := list;
    ghost var i := 0;
    while ptr != null
      invariant i <= |nodes| && ptr == At(nodes, i)
      invariant item !in Names(nodes)[..i]
      decreases |nodes| - i
    {
      if ptr.name == item {
        return true;
      }
      ptr, i := ptr.next, i + 1;
    }
    return false;
  }

  /** The first item with this name; the empty name is found nowhere. */
  method ReturnItemIn(list: Item?, item: string, ghost nodes: seq<Item>) returns (found: Item?, ghost at: nat)
    requires Chain(list, nodes)
    ensures found == At(nodes, at) && at <= |nodes|
    ensures at < |nodes| <==> item != "" && item in Names(nodes)
    ensures at < |nodes| ==> Names(nodes)[at] == item
    ensures item != "" ==> forall k | 0 <= k < at :: Names(nodes)[k] != item
  {
    at := |nodes|;
    if item == "" {
      return null, at;
    }
    var ptr := list;
    ghost var i := 0;
    while ptr != null
      invariant i <= |nodes| && ptr == At(nodes, i)
      invariant item !in Names(nodes)[..i]
      decreases |nodes| - i
    {
      if ptr.name == item {
        return ptr, i;
      }
      ptr, i := ptr.next, i + 1;
    }
    return null, at;
  }

  method ListsCompare(list1: Item?, list2: Item?, ghost nodes1: seq<Item>, ghost nodes2: seq<Item>)
    returns (same: bool)
    requires Chain(list1, nodes1) && Chain(list2, nodes2)
    ensures same <==> ComparesEqual(Names(nodes1), Names(nodes2))
  {
    var len1 := ListLen(list1, nodes1);
    var len2 := ListLen(list2, nodes2);
    if len1 != len2 {
      return false;
    }
    ghost var names, names2 := Names(nodes1), Names(nodes2);
    var ptr := list1;
    ghost var i := 0;
    while ptr != null
      invariant i <= |nodes1| && ptr == At(nodes1, i)
      invariant forall k | 0 <= k < i :: names[k] == "" || names[k] in names2
      decreases |nodes1| - i
    {
      assert ptr.name == names[i] && i < |nodes1|;
      var found := IsItemIn(list2, ptr.name, nodes2);
      if !found {
        return false;
      }
      ptr, i := ptr.next, i + 1;
    }
    return true;
  }

  /** Equal length, and every non-empty entry of the first is one of the second. */
  predicate ComparesEqual(names1: seq<string>, names2: seq<string>) {
    |names1| == |names2| && forall k | 0 <= k < |names1| :: names1[k] == "" || names1[k] in names2
  }

  // Without duplicates in the first list and without empty names the comparison is set equality.
  lemma ComparisonIsSetEquality(names1: seq<string>, names2: seq<string>)
    requires Distinct(names1) && Distinct(names2) && "" !in names1
    ensures ComparesEqual(names1, names2) <==> Entries(names1) == Entries(names2)
  {
    DistinctEntriesCount(names1);
    DistinctEntriesCount(names2);
    if ComparesEqual(names1, names2) {
      SubsetOfEqualSizeIsEqual(Entries(names1), Entries(names2));
    } else if Entries(names1) == Entries(names2) {
      forall k | 0 <= k < |names1| ensures names1[k] in names2 {
        assert names1[k] in Entries(names1);
      }
    }
  }
}
