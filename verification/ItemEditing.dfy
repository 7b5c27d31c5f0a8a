// The operations of item.c that build and rewire lists of items in place.
module ItemEditing {
  import opened ItemLists
  import opened Options

  /** Everything an item carries besides its link. */
  datatype Payload = Payload(name: string, classes: Option<string>, counter: int, time: int)

  /** The items hold these values, in this order. */
  ghost predicate Carries(nodes: seq<Item>, values: seq<Payload>)
    reads nodes`name, nodes`classes, nodes`counter, nodes`time
  {
    && |nodes| == |values|
    && forall i {:trigger values[i]} | 0 <= i < |nodes| ::
         values[i] == Payload(nodes[i].name, nodes[i].classes, nodes[i].counter, nodes[i].time)
  }

  function Reversed<T>(s: seq<T>): (r: seq<T>)
    ensures |r| == |s|
    ensures forall k | 0 <= k < |s| :: r[k] == s[|s| - 1 - k]
  {
    seq(|s|, k requires 0 <= k < |s| => s[|s| - 1 - k])
  }

  ghost function Previous(nodes: seq<Item>, i: nat): Item?
    requires i <= |nodes|
  {
    if i == 0 then null else nodes[i - 1]
  }

  method ReverseItemList(list: Item?, ghost nodes: seq<Item>) returns (tail: Item?)
    requires Chain(list, nodes)
    modifies nodes`next
    ensures Chain(tail, Reversed(nodes))
  {
    ChainNodesAreDistinct(list, nodes);
    tail := null;
    var rest := list;
    ghost var i := 0;
    while rest != null
      invariant i <= |nodes| && rest == At(nodes, i) && tail == Previous(nodes, i)
      invariant forall k {:trigger nodes[k].next} | i <= k < |nodes| :: nodes[k].next == At(nodes, k + 1)
      invariant forall k {:trigger nodes[k].next} | 0 <= k < i :: nodes[k].next == Previous(nodes, k)
      decreases |nodes| - i
    {
      var here := rest;
      rest := here.next;
      here.next := tail;
      tail := here;
      i := i + 1;
    }
  }

  method PrependFullItem(start: Item?, itemstring: string, classes: Option<string>, counter: int, time: int,
                         ghost nodes: seq<Item>, ghost values: seq<Payload>)
    returns (head: Item)
    requires Chain(start, nodes) && Carries(nodes, values)
    ensures fresh(head) && Chain(head, [head] + nodes)
    ensures Carries([head] + nodes, [Payload(itemstring, classes, counter, time)] + values)
  {
    head := new Item(itemstring, classes, counter, time, start);
  }

  /** Item **liststart, with the nodes reachable from it and what they hold as ghost state. */
  class ItemList {
    var start: Item?
    ghost var nodes: seq<Item>
    ghost var values: seq<Payload>

    ghost predicate Valid()
      reads this, nodes
    {
      Chain(start, nodes) && Carries(nodes, values)
    }

    constructor ()
      ensures Valid() && nodes == [] && values == []
    {
      start, nodes, values := null, [], [];
    }

    method PrependItem(itemstring: string, classes: Option<string>)
      requires Valid()
      modifies this
      ensures Valid() && nodes == [start] + old(nodes) && fresh(start)
      ensures values == [Payload(itemstring, classes, 0, 0)] + old(values)
    {
      start := PrependFullItem(start, itemstring, classes, 0, 0, nodes, values);
      nodes := [start] + nodes;
      values := [Payload(itemstring, classes, 0, 0)] + values;
    }

    /** An item is there afterwards under this name; nothing is added when one was there before.
        The empty name is never looked up, so it is always added. */
    method IdempPrependItem(itemstring: string, classes: Option<string>) returns (item: Item)
      requires Valid()
      modifies this
      ensures Valid() && item in nodes && item.name == itemstring
      ensures values == IdempStep(old(values), itemstring, classes)
      ensures itemstring != "" && HasName(old(values), itemstring) ==> values == old(values)
      ensures itemstring == "" || !HasName(old(values), itemstring) ==>
                values == [Payload(itemstring, classes, 0, 0)] + old(values)
      ensures values == old(values) ==> start == old(start) && nodes == old(nodes)
    {
      StepsInWords(values, itemstring, classes);
      var ip, at := ReturnItemIn(start, itemstring, nodes);
      LookupIsFirst(nodes, values, itemstring, at);
      if ip != null {
        return ip;
      }
      PrependItem(itemstring, classes);
      assert values[0].name == nodes[0].name;
      return start;
    }

    method CountItem(ip: Item, ghost at: nat)
      requires Valid() && at < |nodes| && ip == nodes[at]
      modifies this`values, ip`counter
      ensures Valid()
      ensures values == old(values)[at := old(values)[at].(counter := old(values)[at].counter + 1)]
    {
      ChainNodesAreDistinct(start, nodes);
      ip.counter := ip.counter + 1;
      values := values[at := values[at].(counter := values[at].counter + 1)];
    }

    method IdempItemCount(itemstring: string, classes: Option<string>)
      requires Valid()
      modifies this, nodes`counter
      ensures Valid()
      ensures values == CountStep(old(values), itemstring, classes)
      ensures itemstring != "" && HasName(old(values), itemstring) ==>
                CountedOnceMore(old(values), values, itemstring)
      ensures itemstring == "" || !HasName(old(values), itemstring) ==>
                values == [Payload(itemstring, classes, 0, 0)] + old(values)
    {
      var ip, at := ReturnItemIn(start, itemstring, nodes);
      LookupIsFirst(nodes, values, itemstring, at);
      if ip != null {
        CountItem(ip, at);
      } else {
        PrependItem(itemstring, classes);
      }
      StepsInWords(old(values), itemstring, classes);
    }
  }

  lemma LookupIsFirst(nodes: seq<Item>, values: seq<Payload>, name: string, at: nat)
    requires Carries(nodes, values) && at <= |nodes|
    requires at < |nodes| ==> name != "" && Names(nodes)[at] == name
    requires name != "" ==> forall k | 0 <= k < at :: Names(nodes)[k] != name
    ensures if name != "" then at == FirstNamed(values, name) else at == |nodes|
  {
    var first := FirstNamed(values, name);
    assert first < |nodes| ==> values[first].name == Names(nodes)[first];
    assert at < |nodes| ==> values[at].name == Names(nodes)[at];
  }

  // ---------------------------------------------------------------- copying and joining

  lemma ReversedGrows<T>(s: seq<T>, i: nat)
    requires i < |s|
    ensures Reversed(s[..i + 1]) == [s[i]] + Reversed(s[..i])
  {
  }

  method CopyBackwards(source: Item?, ghost nodes: seq<Item>, ghost values: seq<Payload>)
    returns (backwards: Item?, ghost made: seq<Item>)
    requires Chain(source, nodes) && Carries(nodes, values)
    ensures Chain(backwards, made) && (forall k | 0 <= k < |made| :: fresh(made[k]))
    ensures Carries(made, Reversed(values))
  {
    backwards, made := null, [];
    var ip := source;
    ghost var i := 0;
    while ip != null
      invariant i <= |nodes| && ip == At(nodes, i)
      invariant Chain(backwards, made) && forall k | 0 <= k < |made| :: fresh(made[k])
      invariant Carries(made, Reversed(values[..i]))
      decreases |nodes| - i
    {
      assert values[i].name == ip.name;
      backwards := PrependFullItem(backwards, ip.name, ip.classes, ip.counter, ip.time, made, Reversed(values[..i]));
      made := [backwards] + made;
      ReversedGrows(values, i);
      ip, i := ip.next, i + 1;
    }
    assert values[..i] == values;
  }

  /** Leaves dest alone when the source is empty, and complains about a dest already in use. */
  method CopyList(dest: Item?, source: Item?, ghost nodes: seq<Item>, ghost values: seq<Payload>)
    returns (copy: Item?, complained: bool, ghost copies: seq<Item>)
    requires Chain(source, nodes) && Carries(nodes, values)
    ensures complained <==> dest != null
    ensures source == null ==> copy == dest
    ensures source != null ==> Chain(copy, copies) && Carries(copies, values)
    ensures forall k | 0 <= k < |copies| :: fresh(copies[k])
  {
    copies := [];
    complained := dest != null;
    if source == null {
      return dest, complained, copies;
    }
    var backwards;
    ghost var made;
    backwards, made := CopyBackwards(source, nodes, values);
    copy := ReverseItemList(backwards, made);
    copies := Reversed(made);
    CarriesReversed(made, values);
  }

  lemma CarriesReversed(nodes: seq<Item>, values: seq<Payload>)
    requires Carries(nodes, Reversed(values))
    ensures Carries(Reversed(nodes), values)
  {
    forall i {:trigger values[i]} | 0 <= i < |nodes|
      ensures var item := Reversed(nodes)[i];
              values[i] == Payload(item.name, item.classes, item.counter, item.time) {
      assert values[i] == Reversed(values)[|nodes| - 1 - i];
    }
  }

  /** The last item, or None for CF_UNDEFINED_ITEM. */
  method EndOfList(list: Item?, ghost nodes: seq<Item>) returns (end: Option<Item>)
    requires Chain(list, nodes)
    ensures nodes == [] ==> end == None
    ensures nodes != [] ==> end == Some(nodes[|nodes| - 1])
  {
    end := None;
    var ip := list;
    ghost var i := 0;
    while ip != null
      invariant i <= |nodes| && ip == At(nodes, i)
      invariant end == if i == 0 then None else Some(nodes[i - 1])
      decreases |nodes| - i
    {
      end := Some(ip);
      ip, i := ip.next, i + 1;
    }
  }

  // The argument behind the check in ConcatLists: if any entry of the first list is in the
  // second, so is its tail.
  lemma SharedEntryMeansSharedTail(list1: Item?, nodes1: seq<Item>, list2: Item?, nodes2: seq<Item>)
    requires Chain(list1, nodes1) && Chain(list2, nodes2) && nodes1 != []
    ensures nodes1[|nodes1| - 1] in nodes2 <==> exists item :: item in nodes1 && item in nodes2
  {
    if item :| item in nodes1 && item in nodes2 {
      var i :| 0 <= i < |nodes1| && nodes1[i] == item;
      var j :| 0 <= j < |nodes2| && nodes2[j] == item;
      EqualNodesHaveEqualTails(list1, nodes1, list2, nodes2, i, j);
    }
  }

  /** joined is false when one of the assertions of the source fires; nothing is changed then. */
  method ConcatLists(list1: Item?, list2: Item?, ghost nodes1: seq<Item>, ghost nodes2: seq<Item>)
    returns (joined: bool, list: Item?)
    requires Chain(list1, nodes1) && Chain(list2, nodes2)
    modifies nodes1`next
    ensures joined <==> nodes1 != [] && forall item | item in nodes1 :: item !in nodes2
    ensures joined ==> list == list1 && Chain(list, nodes1 + nodes2)
    ensures !joined ==> forall item | item in nodes1 :: item.next == old(item.next)
  {
    var tail := EndOfList(list1, nodes1);
    if tail == None {
      return false, list1;
    }
    SharedEntryMeansSharedTail(list1, nodes1, list2, nodes2);
    var shared := ItemIsInList(list2, tail.value, nodes2);
    if shared {
      return false, list1;
    }
    ChainNodesAreDistinct(list1, nodes1);
    tail.value.next := list2;
    JoinedLinksMakeAChain(list1, nodes1, list2, nodes2);
    return true, list1;
  }

  lemma JoinedLinksMakeAChain(list1: Item?, nodes1: seq<Item>, list2: Item?, nodes2: seq<Item>)
    requires nodes1 != [] && list1 == nodes1[0] && Chain(list2, nodes2)
    requires forall i {:trigger nodes1[i].next} | 0 <= i < |nodes1| - 1 :: nodes1[i].next == At(nodes1, i + 1)
    requires nodes1[|nodes1| - 1].next == list2
    ensures Chain(list1, nodes1 + nodes2)
  {
    var all := nodes1 + nodes2;
    forall i {:trigger all[i].next} | 0 <= i < |all| ensures all[i].next == At(all, i + 1) {
      if i < |nodes1| {
        assert all[i] == nodes1[i];
        assert nodes1[i].next == if i + 1 < |nodes1| then At(nodes1, i + 1) else list2;
      } else {
        assert all[i] == nodes2[i - |nodes1|];
        assert nodes2[i - |nodes1|].next == At(nodes2, i - |nodes1| + 1);
      }
    }
  }

  // ---------------------------------------------------------------- the histogram of occurrences

  function FirstNamed(items: seq<Payload>, name: string): (i: nat)
    ensures i <= |items|
    ensures i < |items| ==> items[i].name == name
    ensures forall k | 0 <= k < i :: items[k].name != name
  {
    if items == [] || items[0].name == name then 0 else 1 + FirstNamed(items[1..], name)
  }

  /** IdempPrependItem on the values in the list. */
  function IdempStep(items: seq<Payload>, name: string, classes: Option<string>): seq<Payload> {
    if name != "" && FirstNamed(items, name) < |items| then items
    else [Payload(name, classes, 0, 0)] + items
  }

  /** IdempItemCount on the values in the list. */
  function CountStep(items: seq<Payload>, name: string, classes: Option<string>): seq<Payload> {
    var i := FirstNamed(items, name);
    if name != "" && i < |items| then items[i := items[i].(counter := items[i].counter + 1)]
    else [Payload(name, classes, 0, 0)] + items
  }

  predicate HasName(items: seq<Payload>, name: string) {
    exists i :: 0 <= i < |items| && items[i].name == name
  }

  ghost predicate CountedOnceMore(before: seq<Payload>, after: seq<Payload>, name: string) {
    exists i :: OneMoreAt(before, after, i, name)
  }

  /** Only the first item of the name differs: it has been counted once more. */
  predicate OneMoreAt(before: seq<Payload>, after: seq<Payload>, i: int, name: string) {
    && 0 <= i < |before| == |after| && before[i].name == name && (forall k | 0 <= k < i :: before[k].name != name)
    && after[i].name == name && after[i].classes == before[i].classes && after[i].time == before[i].time
    && after[i].counter == before[i].counter + 1
    && forall k | 0 <= k < |before| && k != i :: after[k] == before[k]
  }

  /** A name that is there is not added again but counted, another one and the empty one are added in front. */
  lemma StepsInWords(items: seq<Payload>, name: string, classes: Option<string>)
    ensures name != "" && HasName(items, name) ==>
              && IdempStep(items, name, classes) == items
              && CountedOnceMore(items, CountStep(items, name, classes), name)
    ensures name == "" || !HasName(items, name) ==>
              && IdempStep(items, name, classes) == [Payload(name, classes, 0, 0)] + items
              && CountStep(items, name, classes) == [Payload(name, classes, 0, 0)] + items
  {
    if name != "" && HasName(items, name) {
      assert OneMoreAt(items, CountStep(items, name, classes), FirstNamed(items, name), name);
    }
  }

  function CountAll(stream: seq<string>, classes: Option<string>): seq<Payload> {
    if stream == [] then []
    else CountStep(CountAll(stream[..|stream| - 1], classes), stream[|stream| - 1], classes)
  }

  function Occurrences(stream: seq<string>, name: string): nat {
    if stream == [] then 0
    else Occurrences(stream[..|stream| - 1], name) + if stream[|stream| - 1] == name then 1 else 0
  }

  // The sum of counter + 1 over the items with this name.
  function Tally(items: seq<Payload>, name: string): int {
    if items == [] then 0
    else (if items[0].name == name then items[0].counter + 1 else 0) + Tally(items[1..], name)
  }

  lemma {:induction false} TallyAfterStep(items: seq<Payload>, step: string, classes: Option<string>, name: string)
    ensures Tally(CountStep(items, step, classes), name) == Tally(items, name) + if step == name then 1 else 0
  {
    var i := FirstNamed(items, step);
    if step != "" && i < |items| {
      TallyAfterIncrement(items, i, name);
    } else {
      assert CountStep(items, step, classes)[1..] == items;
    }
  }

  lemma {:induction false} TallyAfterIncrement(items: seq<Payload>, i: nat, name: string)
    requires i < |items|
    ensures Tally(items[i := items[i].(counter := items[i].counter + 1)], name)
            == Tally(items, name) + if items[i].name == name then 1 else 0
  {
    var after := items[i := items[i].(counter := items[i].counter + 1)];
    if i == 0 {
      assert after[1..] == items[1..];
    } else {
      TallyAfterIncrement(items[1..], i - 1, name);
      assert after[1..] == items[1..][i - 1 := after[i]];
    }
  }

  // For every name, the counters add up to the number of occurrences in the stream.
  lemma {:induction false} CountersAddUp(stream: seq<string>, classes: Option<string>, name: string)
    ensures Tally(CountAll(stream, classes), name) == Occurrences(stream, name)
  {
    if stream != [] {
      CountersAddUp(stream[..|stream| - 1], classes, name);
      TallyAfterStep(CountAll(stream[..|stream| - 1], classes), stream[|stream| - 1], classes, name);
    }
  }

  predicate NamedOnce(items: seq<Payload>) {
    forall i, j | 0 <= i < j < |items| :: items[i].name == items[j].name ==> items[i].name == ""
  }

  lemma {:induction false} NonEmptyNamesAreListedOnce(stream: seq<string>, classes: Option<string>)
    ensures NamedOnce(CountAll(stream, classes))
  {
    if stream != [] {
      NonEmptyNamesAreListedOnce(stream[..|stream| - 1], classes);
    }
  }

  lemma {:induction false} TallyOfAbsentName(items: seq<Payload>, name: string)
    requires forall k | 0 <= k < |items| :: items[k].name != name
    ensures Tally(items, name) == 0
  {
    if items != [] {
      TallyOfAbsentName(items[1..], name);
    }
  }

  lemma {:induction false} TallyOfSingleItem(items: seq<Payload>, i: nat)
    requires i < |items| && forall k | 0 <= k < |items| && k != i :: items[k].name != items[i].name
    ensures Tally(items, items[i].name) == items[i].counter + 1
  {
    if i == 0 {
      TallyOfAbsentName(items[1..], items[0].name);
    } else {
      TallyOfSingleItem(items[1..], i - 1);
    }
  }

  // counter + 1 is the histogram of occurrences, for every name but the empty one.
  lemma CounterPlusOneIsTheHistogram(stream: seq<string>, classes: Option<string>, i: nat)
    requires i < |CountAll(stream, classes)|
    ensures var item := CountAll(stream, classes)[i];
            item.name != "" ==> item.counter + 1 == Occurrences(stream, item.name)
  {
    var items := CountAll(stream, classes);
    if items[i].name != "" {
      NonEmptyNamesAreListedOnce(stream, classes);
      CountersAddUp(stream, classes, items[i].name);
      TallyOfSingleItem(items, i);
    }
  }

  function NodesNamed(items: seq<Payload>, name: string): nat {
    if items == [] then 0 else (if items[0].name == name then 1 else 0) + NodesNamed(items[1..], name)
  }

  lemma {:induction false} NodesAfterStep(items: seq<Payload>, step: string, classes: Option<string>)
    ensures NodesNamed(CountStep(items, step, classes), "") == NodesNamed(items, "") + if step == "" then 1 else 0
  {
    var i := FirstNamed(items, step);
    if step != "" && i < |items| {
      NodesAfterIncrement(items, i);
    } else {
      assert CountStep(items, step, classes)[1..] == items;
    }
  }

  lemma {:induction false} NodesAfterIncrement(items: seq<Payload>, i: nat)
    requires i < |items|
    ensures NodesNamed(items[i := items[i].(counter := items[i].counter + 1)], "") == NodesNamed(items, "")
  {
    var after := items[i := items[i].(counter := items[i].counter + 1)];
    if i == 0 {
      assert after[1..] == items[1..];
    } else {
      NodesAfterIncrement(items[1..], i - 1);
      assert after[1..] == items[1..][i - 1 := after[i]];
    }
  }

  // Empty names are never recognised: each occurrence stands as an item of its own.
  lemma {:induction false} EmptyNamesAreNeverCounted(stream: seq<string>, classes: Option<string>)
    ensures NodesNamed(CountAll(stream, classes), "") == Occurrences(stream, "")
    ensures forall i | 0 <= i < |CountAll(stream, classes)| :: CountAll(stream, classes)[i].name == "" ==>
              CountAll(stream, classes)[i].counter == 0
  {
    if stream != [] {
      EmptyNamesAreNeverCounted(stream[..|stream| - 1], classes);
      NodesAfterStep(CountAll(stream[..|stream| - 1], classes), stream[|stream| - 1], classes);
    }
  }
}
