// Tree matching in XML documents, after files_editxml.c.
module XmlMatching {
  import opened FiniteSets
  import opened Options

  datatype Attribute = Attribute(name: string, value: string)

  datatype Xml =
    | Text(content: string)
    | Element(tag: string, attributes: seq<Attribute>, children: seq<Xml>)

  // ---------------------------------------------------------------- reading a node

  /** xmlNodeGetContent: all the text below a node. */
  function Content(node: Xml): string {
    match node
    case Text(content) => content
    case Element(_, _, children) => ContentOfAll(children)
  }

  function ContentOfAll(nodes: seq<Xml>): string {
    if nodes == [] then "" else Content(nodes[0]) + ContentOfAll(nodes[1..])
  }

  /** xmlNodeGetContent(node->children): the content of the first child only, NULL without one. */
  function LeadText(children: seq<Xml>): Option<string> {
    if children == [] then None else Some(Content(children[0]))
  }

  /** xmlHasProp followed by reading its value. */
  function Lookup(attributes: seq<Attribute>, name: string): Option<string> {
    if attributes == [] then None
    else if attributes[0].name == name then Some(attributes[0].value)
    else Lookup(attributes[1..], name)
  }

  function ElementPositions(nodes: seq<Xml>): set<nat> {
    set p: nat | p < |nodes| && nodes[p].Element?
  }

  // ---------------------------------------------------------------- what the comparisons decide

  predicate AttributesFound(attributes1: seq<Attribute>, attributes2: seq<Attribute>) {
    forall i | 0 <= i < |attributes1| :: Lookup(attributes2, attributes1[i].name) == Some(attributes1[i].value)
  }

  /** Exact match: same tag, same attributes, same leading text, as many child elements, and
      every child element of the first matches some child element of the second. */
  predicate Matches(node1: Xml, node2: Xml)
    requires node1.Element? && node2.Element?
    decreases node1, 0
  {
    && node1.tag == node2.tag
    && |node1.attributes| == |node2.attributes|
    && AttributesFound(node1.attributes, node2.attributes)
    && LeadText(node1.children) == LeadText(node2.children)
    && |ElementPositions(node1.children)| == |ElementPositions(node2.children)|
    && AllFound(node1.children, node2.children)
  }

  predicate AllFound(nodes1: seq<Xml>, nodes2: seq<Xml>)
    decreases nodes1, 1
  {
    forall p: nat | p < |nodes1| && nodes1[p].Element? :: Found(nodes1[p], nodes2)
  }

  predicate Found(node1: Xml, nodes2: seq<Xml>)
    requires node1.Element?
    decreases node1, 1
  {
    exists q: nat :: q < |nodes2| && nodes2[q].Element? && Matches(node1, nodes2[q])
  }

  predicate OccursAt(text: string, within: string, i: nat) {
    i + |text| <= |within| && within[i..i + |text|] == text
  }

  predicate IsSubstring(text: string, within: string) {
    exists i: nat | i <= |within| :: OccursAt(text, within, i)
  }

  predicate TextWithin(text1: Option<string>, text2: Option<string>) {
    text1.None? || (text2.Some? && IsSubstring(text1.value, text2.value))
  }

  /** Subset match, the test that decides every insertion and deletion. */
  predicate SubsetOf(node1: Xml, node2: Xml)
    requires node1.Element? && node2.Element?
  {
    && node1.tag == node2.tag
    && AttributesFound(node1.attributes, node2.attributes)
    && TextWithin(LeadText(node1.children), LeadText(node2.children))
    && AllFound(node1.children, node2.children)
  }

  // ---------------------------------------------------------------- the comparisons as written

  method XmlVerifyAttributeInNode(name: string, value: string, node: Xml) returns (found: bool)
    requires node.Element?
    ensures found <==> Lookup(node.attributes, name) == Some(value)
  {
    var i := 0;
    while i < |node.attributes|
      invariant 0 <= i <= |node.attributes|
      invariant Lookup(node.attributes, name) == Lookup(node.attributes[i..], name)
    {
      if node.attributes[i].name == name {
        return node.attributes[i].value == value;
      }
      i := i + 1;
    }
    return false;
  }

  method XmlNodesSubsetOfAttributes(node1: Xml, node2: Xml) returns (subset: bool)
    requires node1.Element? && node2.Element?
    ensures subset <==> AttributesFound(node1.attributes, node2.attributes)
  {
    if node1.attributes == [] && node2.attributes == [] {
      return true;
    }
    if node2.attributes == [] {
      assert Lookup(node2.attributes, node1.attributes[0].name).None?;
      return false;
    }
    var i := 0;
    while i < |node1.attributes|
      invariant 0 <= i <= |node1.attributes|
      invariant forall j | 0 <= j < i ::
                  Lookup(node2.attributes, node1.attributes[j].name) == Some(node1.attributes[j].value)
    {
      var found := XmlVerifyAttributeInNode(node1.attributes[i].name, node1.attributes[i].value, node2);
      if !found {
        return false;
      }
      i := i + 1;
    }
    return true;
  }

  method XmlNodesCompareAttributes(node1: Xml, node2: Xml) returns (compare: bool)
    requires node1.Element? && node2.Element?
    ensures compare <==> |node1.attributes| == |node2.attributes| && AttributesFound(node1.attributes, node2.attributes)
  {
    if node1.attributes == [] && node2.attributes == [] {
      return true;
    }
    if node1.attributes == [] || node2.attributes == [] {
      return false;
    }
    if |node1.attributes| != |node2.attributes| {
      return false;
    }
    compare := XmlNodesSubsetOfAttributes(node1, node2);
  }

  method XmlChildElementCount(node: Xml) returns (count: nat)
    requires node.Element?
    ensures count == |ElementPositions(node.children)|
  {
    count := 0;
    var p := 0;
    while p < |node.children|
      invariant 0 <= p <= |node.children|
      invariant count == |ElementPositions(node.children[..p])|
    {
      ghost var before, after := ElementPositions(node.children[..p]), ElementPositions(node.children[..p + 1]);
      if node.children[p].Element? {
        assert after == before + {p};
        count := count + 1;
      } else {
        assert after == before;
      }
      p := p + 1;
    }
    assert node.children[..p] == node.children;
  }

  method XmlNodesCompare(node1: Xml, node2: Xml) returns (compare: bool)
    requires node1.Element? && node2.Element?
    ensures compare <==> Matches(node1, node2)
    decreases node1, 3
  {
    compare := true;
    if node1.tag != node2.tag {
      compare := false;
    }
    if compare {
      compare := XmlNodesCompareAttributes(node1, node2);
    }
    if compare && LeadText(node1.children) != LeadText(node2.children) {
      compare := false;
    }
    if compare {
      compare := XmlNodesCompareNodes(node1, node2);
    }
  }

  method XmlNodesCompareNodes(node1: Xml, node2: Xml) returns (compare: bool)
    requires node1.Element? && node2.Element?
    ensures compare <==> |ElementPositions(node1.children)| == |ElementPositions(node2.children)|
                         && AllFound(node1.children, node2.children)
    decreases node1, 2
  {
    var count1 := XmlChildElementCount(node1);
    var count2 := XmlChildElementCount(node2);
    if count1 != count2 {
      return false;
    }
    compare := XmlNodesSubsetOfNodes(node1, node2);
  }

  /** The sibling loop that XmlNodesCompareNodes and XmlNodesSubsetOfNodes share. */
  method XmlNodesSubsetOfNodes(node1: Xml, node2: Xml) returns (subset: bool)
    requires node1.Element? && node2.Element?
    ensures subset <==> AllFound(node1.children, node2.children)
    decreases node1, 1
  {
    var p: nat := 0;
    while p < |node1.children|
      invariant p <= |node1.children|
      invariant forall r: nat | r < p && node1.children[r].Element? :: Found(node1.children[r], node2.children)
    {
      if node1.children[p].Element? {
        var found := XmlVerifyNodeInNodeExact(node1.children[p], node2);
        if !found {
          return false;
        }
      }
      p := p + 1;
    }
    return true;
  }

  method XmlVerifyNodeInNodeExact(node1: Xml, node2: Xml) returns (found: bool)
    requires node1.Element? && node2.Element?
    ensures found <==> Found(node1, node2.children)
    decreases node1, 4
  {
    var q: nat := 0;
    while q < |node2.children|
      invariant q <= |node2.children|
      invariant forall r: nat | r < q && node2.children[r].Element? :: !Matches(node1, node2.children[r])
    {
      if node2.children[q].Element? {
        var same := XmlNodesCompare(node1, node2.children[q]);
        if same {
          return true;
        }
      }
      q := q + 1;
    }
    return false;
  }

  method XmlNodesSubset(node1: Xml, node2: Xml) returns (subset: bool)
    requires node1.Element? && node2.Element?
    ensures subset <==> SubsetOf(node1, node2)
  {
    subset := true;
    if node1.tag != node2.tag {
      subset := false;
    }
    if subset {
      subset := XmlNodesSubsetOfAttributes(node1, node2);
    }
    if subset && !TextWithin(LeadText(node1.children), LeadText(node2.children)) {
      subset := false;
    }
    if subset {
      subset := XmlNodesSubsetOfNodes(node1, node2);
    }
  }

  /** The position of the first child that the node is a subset of. */
  function FirstHolding(node: Xml, nodes: seq<Xml>): (p: nat)
    requires node.Element?
    ensures p <= |nodes|
    ensures p < |nodes| ==> nodes[p].Element? && SubsetOf(node, nodes[p])
    ensures forall r: nat | r < p && nodes[r].Element? :: !SubsetOf(node, nodes[r])
  {
    if nodes == [] || (nodes[0].Element? && SubsetOf(node, nodes[0])) then 0
    else
      var p := FirstHolding(node, nodes[1..]);
      assert forall r: nat | 0 < r < |nodes| :: nodes[r] == nodes[1..][r - 1];
      p + 1
  }

  method XmlVerifyNodeInNodeSubset(node1: Xml, node2: Xml) returns (at: nat)
    requires node1.Element? && node2.Element?
    ensures at == FirstHolding(node1, node2.children)
  {
    at := 0;
    while at < |node2.children|
      invariant at <= |node2.children|
      invariant forall r: nat | r < at && node2.children[r].Element? :: !SubsetOf(node1, node2.children[r])
    {
      if node2.children[at].Element? {
        var subset := XmlNodesSubset(node1, node2.children[at]);
        if subset {
          return;
        }
      }
      at := at + 1;
    }
  }

  // ---------------------------------------------------------------- in-place edits of a document node

  class DocumentNode {
    var node: Xml
    var freed: set<nat>  // children that have been freed but are still linked

    constructor (node: Xml)
      requires node.Element?
      ensures this.node == node && freed == {}
    {
      this.node, freed := node, {};
    }

    /** Returns true when something was, or was only to be, inserted. */
    method InsertTreeInNode(tree: Xml, warnOnly: bool) returns (edited: bool)
      requires node.Element? && freed == {} && tree.Element? && WellFormed(tree)
      modifies this
      ensures node == (if warnOnly then old(node) else AfterInsertion(tree, old(node))) && freed == {}
      ensures edited <==> !Holds(tree, old(node))
    {
      var at := XmlVerifyNodeInNodeSubset(tree, node);
      if at < |node.children| {
        return false;
      }
      if warnOnly {
        return true;
      }
      node := node.(children := node.children + [tree]);
      at := XmlVerifyNodeInNodeSubset(tree, node);
      assert node.children[|node.children| - 1] == tree;
      SubsetIsReflexive(tree);
      if at == |node.children| {
        return false;
      }
      return true;
    }

    /**
     * Returns true when the tree was, or was only to be, deleted and none is left. A matching
     * child is freed without being unlinked when only a warning is promised, and when another
     * match remains after the deletion.
     */
    method DeleteTreeInNode(tree: Xml, warnOnly: bool) returns (edited: bool)
      requires node.Element? && freed == {} && tree.Element?
      modifies this
      ensures freed == {} ==> node == AfterDeletion(tree, old(node))
      ensures freed != {} <==> Holds(tree, if warnOnly then old(node) else AfterDeletion(tree, old(node)))
      ensures forall at | at in freed ::
                at == FirstHolding(tree, (if warnOnly then old(node) else AfterDeletion(tree, old(node))).children)
      ensures edited <==> Holds(tree, old(node)) && (warnOnly || freed == {})
    {
      var at := XmlVerifyNodeInNodeSubset(tree, node);
      if at == |node.children| {
        return false;
      }
      if warnOnly {
        freed := {at};
        assert at in freed;
        return true;
      }
      node := node.(children := node.children[..at] + node.children[at + 1..]);
      at := XmlVerifyNodeInNodeSubset(tree, node);
      if at < |node.children| {
        freed := {at};
        assert at in freed;
        return false;
      }
      return true;
    }
  }

  predicate Holds(tree: Xml, node: Xml)
    requires tree.Element? && node.Element?
  {
    FirstHolding(tree, node.children) < |node.children|
  }

  function AfterInsertion(tree: Xml, node: Xml): (r: Xml)
    requires tree.Element? && node.Element?
    ensures r.Element?
  {
    if Holds(tree, node) then node else node.(children := node.children + [tree])
  }

  function AfterDeletion(tree: Xml, node: Xml): (r: Xml)
    requires tree.Element? && node.Element?
    ensures r.Element?
  {
    var at := FirstHolding(tree, node.children);
    if at == |node.children| then node
    else node.(children := node.children[..at] + node.children[at + 1..])
  }

  // ---------------------------------------------------------------- well-formed trees

  ghost predicate UniqueNames(attributes: seq<Attribute>) {
    forall i, j | 0 <= i < j < |attributes| :: attributes[i].name != attributes[j].name
  }

  ghost predicate WellFormed(node: Xml) {
    node.Element? ==>
      UniqueNames(node.attributes) && forall child | child in node.children :: WellFormed(child)
  }

  lemma {:induction false} LookupWithUniqueNames(attributes: seq<Attribute>, name: string, value: string)
    requires UniqueNames(attributes)
    ensures Lookup(attributes, name) == Some(value) <==> Attribute(name, value) in attributes
  {
    if attributes != [] {
      var rest := attributes[1..];
      assert attributes == [attributes[0]] + rest;
      LookupWithUniqueNames(rest, name, value);
      assert forall j | 0 <= j < |rest| :: rest[j] == attributes[j + 1];
    }
  }

  // With unique names, one attribute list is found in another exactly when it is a subset.
  lemma FoundAttributesAreASubset(attributes1: seq<Attribute>, attributes2: seq<Attribute>)
    requires UniqueNames(attributes2)
    ensures AttributesFound(attributes1, attributes2) <==> Entries(attributes1) <= Entries(attributes2)
  {
    forall i | 0 <= i < |attributes1|
      ensures Lookup(attributes2, attributes1[i].name) == Some(attributes1[i].value)
              <==> attributes1[i] in Entries(attributes2) {
      LookupWithUniqueNames(attributes2, attributes1[i].name, attributes1[i].value);
    }
    if Entries(attributes1) <= Entries(attributes2) {
      forall i | 0 <= i < |attributes1| ensures attributes1[i] in Entries(attributes2) {
        assert attributes1[i] in Entries(attributes1);
      }
    }
  }

  // ... and comparing them is comparing them as sets, whatever the order.
  lemma AttributeComparisonIsSetEquality(attributes1: seq<Attribute>, attributes2: seq<Attribute>)
    requires UniqueNames(attributes1) && UniqueNames(attributes2)
    ensures |attributes1| == |attributes2| && AttributesFound(attributes1, attributes2)
            <==> Entries(attributes1) == Entries(attributes2)
  {
    FoundAttributesAreASubset(attributes1, attributes2);
    DistinctEntriesCount(attributes1);
    DistinctEntriesCount(attributes2);
    if |attributes1| == |attributes2| && Entries(attributes1) <= Entries(attributes2) {
      SubsetOfEqualSizeIsEqual(Entries(attributes1), Entries(attributes2));
    }
  }

  // ---------------------------------------------------------------- exact matching is a preorder

  lemma {:induction false} MatchingIsReflexive(node: Xml)
    requires node.Element? && WellFormed(node)
    ensures Matches(node, node)
    decreases node
  {
    AttributeComparisonIsSetEquality(node.attributes, node.attributes);
    forall p: nat | p < |node.children| && node.children[p].Element? ensures Found(node.children[p], node.children) {
      MatchingIsReflexive(node.children[p]);
    }
  }

  lemma SubsetIsReflexive(node: Xml)
    requires node.Element? && WellFormed(node)
    ensures SubsetOf(node, node)
  {
    MatchingIsReflexive(node);
    if node.children != [] {
      var text := LeadText(node.children).value;
      assert OccursAt(text, text, 0);
    }
  }

  lemma {:induction false} LookupFindsAnAttribute(attributes: seq<Attribute>, name: string)
    ensures Lookup(attributes, name).Some? ==> Attribute(name, Lookup(attributes, name).value) in attributes
  {
    if attributes != [] && attributes[0].name != name {
      LookupFindsAnAttribute(attributes[1..], name);
    }
  }

  lemma FindingAttributesIsTransitive(attributes1: seq<Attribute>, attributes2: seq<Attribute>,
                                      attributes3: seq<Attribute>)
    requires AttributesFound(attributes1, attributes2) && AttributesFound(attributes2, attributes3)
    ensures AttributesFound(attributes1, attributes3)
  {
    forall i | 0 <= i < |attributes1|
      ensures Lookup(attributes3, attributes1[i].name) == Some(attributes1[i].value)
    {
      LookupFindsAnAttribute(attributes2, attributes1[i].name);
    }
  }

  lemma {:induction false} MatchingIsTransitive(node1: Xml, node2: Xml, node3: Xml)
    requires node1.Element? && node2.Element? && node3.Element?
    requires Matches(node1, node2) && Matches(node2, node3)
    ensures Matches(node1, node3)
    decreases node1
  {
    FindingAttributesIsTransitive(node1.attributes, node2.attributes, node3.attributes);
    FoundIsTransitive(node1, node2, node3);
  }

  lemma {:induction false} FoundIsTransitive(node1: Xml, node2: Xml, node3: Xml)
    requires node1.Element? && node2.Element? && node3.Element?
    requires AllFound(node1.children, node2.children) && AllFound(node2.children, node3.children)
    ensures AllFound(node1.children, node3.children)
    decreases node1, 0
  {
    forall p: nat | p < |node1.children| && node1.children[p].Element?
      ensures Found(node1.children[p], node3.children) {
      assert Found(node1.children[p], node2.children);
      var q: nat :| q < |node2.children| && node2.children[q].Element?
                    && Matches(node1.children[p], node2.children[q]);
      assert Found(node2.children[q], node3.children);
      var r: nat :| r < |node3.children| && node3.children[r].Element?
                    && Matches(node2.children[q], node3.children[r]);
      MatchingIsTransitive(node1.children[p], node2.children[q], node3.children[r]);
    }
  }

  // ---------------------------------------------------------------- the subset test is a preorder

  lemma SubstringIsTransitive(a: string, b: string, c: string)
    requires IsSubstring(a, b) && IsSubstring(b, c)
    ensures IsSubstring(a, c)
  {
    var i: nat :| i <= |b| && OccursAt(a, b, i);
    var j: nat :| j <= |c| && OccursAt(b, c, j);
    var k := i + j;
    assert b == c[j..j + |b|];
    assert forall x | 0 <= x < |a| :: a[x] == b[i..i + |a|][x] == b[i + x] == c[j + (i + x)];
    assert c[k..k + |a|] == a;
    assert OccursAt(a, c, i + j);
  }

  lemma SubsetIsTransitive(node1: Xml, node2: Xml, node3: Xml)
    requires node1.Element? && node2.Element? && node3.Element?
    requires SubsetOf(node1, node2) && SubsetOf(node2, node3)
    ensures SubsetOf(node1, node3)
  {
    FindingAttributesIsTransitive(node1.attributes, node2.attributes, node3.attributes);
    FoundIsTransitive(node1, node2, node3);
    if node1.children != [] {
      SubstringIsTransitive(LeadText(node1.children).value, LeadText(node2.children).value,
                            LeadText(node3.children).value);
    }
  }

  lemma MatchingNodesAreSubsets(node1: Xml, node2: Xml)
    requires node1.Element? && node2.Element? && Matches(node1, node2)
    ensures SubsetOf(node1, node2)
  {
    if node1.children != [] {
      var text := LeadText(node1.children).value;
      assert OccursAt(text, text, 0);
    }
  }

  // ---------------------------------------------------------------- when exact matching is symmetric

  /** At no depth does a child element match another child element of the same parent. */
  ghost predicate SiblingsDiffer(node: Xml) {
    node.Element? ==>
      && !HasMatchingSiblings(node.children)
      && forall child | child in node.children :: SiblingsDiffer(child)
  }

  ghost predicate HasMatchingSiblings(nodes: seq<Xml>) {
    exists p: nat, q: nat :: MatchingSiblings(nodes, p, q)
  }

  ghost predicate MatchingSiblings(nodes: seq<Xml>, p: nat, q: nat) {
    p < |nodes| && q < |nodes| && p != q && nodes[p].Element? && nodes[q].Element? && Matches(nodes[p], nodes[q])
  }

  // For each child element of the first, the position of a child of the second it matches.
  ghost function Partners(nodes1: seq<Xml>, nodes2: seq<Xml>): (m: map<nat, nat>)
    requires AllFound(nodes1, nodes2)
    ensures m.Keys == ElementPositions(nodes1)
    ensures forall p | p in m :: m[p] in ElementPositions(nodes2) && Matches(nodes1[p], nodes2[m[p]])
  {
    map p: nat | p < |nodes1| && nodes1[p].Element? ::
      assert Found(nodes1[p], nodes2);
      var q: nat :| q < |nodes2| && nodes2[q].Element? && Matches(nodes1[p], nodes2[q]); q
  }

  lemma {:induction false} MatchingIsSymmetric(node1: Xml, node2: Xml)
    requires node1.Element? && node2.Element?
    requires WellFormed(node1) && WellFormed(node2) && SiblingsDiffer(node1)
    requires Matches(node1, node2)
    ensures Matches(node2, node1)
    decreases node1
  {
    AttributeComparisonIsSetEquality(node1.attributes, node2.attributes);
    AttributeComparisonIsSetEquality(node2.attributes, node1.attributes);
    var partner := Partners(node1.children, node2.children);
    forall p | p in partner ensures Matches(node2.children[partner[p]], node1.children[p]) {
      MatchingIsSymmetric(node1.children[p], node2.children[partner[p]]);
    }
    forall p, q | p in partner && q in partner && partner[p] == partner[q]
      ensures Matches(node1.children[p], node1.children[q]) {
      MatchingIsTransitive(node1.children[p], node2.children[partner[p]], node1.children[q]);
    }
    forall p, q | p in partner && q in partner && p != q ensures partner[p] != partner[q] {
      assert !MatchingSiblings(node1.children, p, q);
    }
    OneToOneIntoEqualSizeIsOnto(partner, ElementPositions(node2.children));
    forall q: nat | q < |node2.children| && node2.children[q].Element?
      ensures Found(node2.children[q], node1.children) {
      assert q in partner.Values;
      var p :| p in partner && partner[p] == q;
    }
  }

  // ---------------------------------------------------------------- and only then

  function AllTags(nodes: seq<Xml>): string {
    if nodes == [] then "x" else AllTags(nodes[1..]) + if nodes[0].Element? then nodes[0].tag else ""
  }

  lemma {:induction false} AllTagsIsNewTag(nodes: seq<Xml>, p: nat)
    requires p < |nodes| && nodes[p].Element?
    ensures |AllTags(nodes)| > |nodes[p].tag|
  {
    if p > 0 {
      AllTagsIsNewTag(nodes[1..], p - 1);
    } else {
      AllTagsIsNotEmpty(nodes[1..]);
    }
  }

  lemma {:induction false} AllTagsIsNotEmpty(nodes: seq<Xml>)
    ensures |AllTags(nodes)| > 0
  {
    if nodes != [] {
      AllTagsIsNotEmpty(nodes[1..]);
    }
  }

  lemma {:induction false} ContentAfterReplacement(nodes: seq<Xml>, p: nat, other: Xml)
    requires p < |nodes| && Content(other) == Content(nodes[p])
    ensures ContentOfAll(nodes[p := other]) == ContentOfAll(nodes)
    ensures LeadText(nodes[p := other]) == LeadText(nodes)
  {
    if p == 0 {
      assert nodes[p := other][1..] == nodes[1..];
    } else {
      assert nodes[p := other][1..] == nodes[1..][p - 1 := other];
      ContentAfterReplacement(nodes[1..], p - 1, other);
    }
  }

  // A node differs from node only in child p, where node's own child matches the new one.
  lemma ReplacedChildStillMatches(node: Xml, p: nat, other: Xml)
    requires node.Element? && WellFormed(node) && WellFormed(other)
    requires p < |node.children| && node.children[p].Element? && other.Element?
    requires Content(other) == Content(node.children[p])
    requires Found(node.children[p], node.children[p := other])
    ensures var node2 := node.(children := node.children[p := other]);
            WellFormed(node2) && Content(node2) == Content(node) && Matches(node, node2)
  {
    var others := node.children[p := other];
    ContentAfterReplacement(node.children, p, other);
    AttributeComparisonIsSetEquality(node.attributes, node.attributes);
    assert ElementPositions(others) == ElementPositions(node.children);
    forall r: nat | r < |node.children| && node.children[r].Element? ensures Found(node.children[r], others) {
      if r != p {
        MatchingIsReflexive(node.children[r]);
        assert others[r] == node.children[r];
      }
    }
  }

  // Two matching siblings leave room for a one-sided match: rename one of them.
  lemma OneSidedMatchFromSiblings(node: Xml, p: nat, q: nat) returns (node2: Xml)
    requires node.Element? && WellFormed(node) && MatchingSiblings(node.children, p, q)
    ensures node2.Element? && WellFormed(node2) && Content(node2) == Content(node)
    ensures Matches(node, node2) && !Matches(node2, node)
  {
    var renamed := node.children[p].(tag := AllTags(node.children));
    var others := node.children[p := renamed];
    assert others[q] == node.children[q];
    assert WellFormed(node.children[p]) by { assert node.children[p] in node.children; }
    ReplacedChildStillMatches(node, p, renamed);
    node2 := node.(children := others);
    forall r: nat | r < |node.children| && node.children[r].Element? ensures !Matches(renamed, node.children[r]) {
      AllTagsIsNewTag(node.children, r);
    }
    assert others[p] == renamed;
    assert !Found(others[p], node.children);
  }

  lemma {:induction false} OneSidedMatchExists(node: Xml) returns (node2: Xml)
    requires node.Element? && WellFormed(node) && !SiblingsDiffer(node)
    ensures node2.Element? && WellFormed(node2) && Content(node2) == Content(node)
    ensures Matches(node, node2) && !Matches(node2, node)
    decreases node
  {
    if HasMatchingSiblings(node.children) {
      var p: nat, q: nat :| MatchingSiblings(node.children, p, q);
      node2 := OneSidedMatchFromSiblings(node, p, q);
    } else {
      var child :| child in node.children && !SiblingsDiffer(child);
      var p: nat :| p < |node.children| && node.children[p] == child;
      var other := OneSidedMatchExists(child);
      var others := node.children[p := other];
      assert others[p] == other;
      ReplacedChildStillMatches(node, p, other);
      node2 := node.(children := others);
      forall q: nat | q < |node.children| && node.children[q].Element? ensures !Matches(other, node.children[q]) {
        if q != p && Matches(other, node.children[q]) {
          MatchingIsTransitive(child, other, node.children[q]);
          assert MatchingSiblings(node.children, p, q);
        }
      }
      assert !Found(others[p], node.children);
    }
  }

  // Exact matching of a tree is symmetric exactly when no two siblings of it match.
  lemma SymmetricExactlyWhenSiblingsDiffer(node: Xml)
    requires node.Element? && WellFormed(node)
    ensures SiblingsDiffer(node)
            <==> forall other: Xml | other.Element? && WellFormed(other) && Matches(node, other) :: Matches(other, node)
  {
    if SiblingsDiffer(node) {
      forall other: Xml | other.Element? && WellFormed(other) && Matches(node, other) ensures Matches(other, node) {
        MatchingIsSymmetric(node, other);
      }
    } else {
      var other := OneSidedMatchExists(node);
    }
  }

  // ---------------------------------------------------------------- edits converge

  lemma {:induction false} FirstHoldingIsFirst(tree: Xml, nodes: seq<Xml>, p: nat)
    requires tree.Element? && p < |nodes| && nodes[p].Element? && SubsetOf(tree, nodes[p])
    requires forall r: nat | r < p && nodes[r].Element? :: !SubsetOf(tree, nodes[r])
    ensures FirstHolding(tree, nodes) == p
  {
  }

  // An insertion leaves the tree there to be found, so a second insertion changes nothing.
  lemma InsertionConverges(tree: Xml, node: Xml)
    requires tree.Element? && WellFormed(tree) && node.Element?
    ensures Holds(tree, AfterInsertion(tree, node))
    ensures AfterInsertion(tree, AfterInsertion(tree, node)) == AfterInsertion(tree, node)
  {
    var after := AfterInsertion(tree, node);
    SubsetIsReflexive(tree);
    if !Holds(tree, node) {
      assert after.children[|node.children|] == tree;
    }
  }

  // Deleting what was inserted restores the node.
  lemma DeletionUndoesInsertion(tree: Xml, node: Xml)
    requires tree.Element? && WellFormed(tree) && node.Element? && !Holds(tree, node)
    ensures AfterDeletion(tree, AfterInsertion(tree, node)) == node
    ensures !Holds(tree, AfterDeletion(tree, AfterInsertion(tree, node)))
  {
    var after := AfterInsertion(tree, node);
    var n := |node.children|;
    SubsetIsReflexive(tree);
    assert after.children[n] == tree;
    forall r: nat | r < n && after.children[r].Element? ensures !SubsetOf(tree, after.children[r]) {
      assert after.children[r] == node.children[r];
    }
    FirstHoldingIsFirst(tree, after.children, n);
    assert after.children[..n] + after.children[n + 1..] == node.children;
  }

  ghost predicate HeldAt(tree: Xml, node: Xml, p: nat)
    requires tree.Element? && node.Element?
  {
    p < |node.children| && node.children[p].Element? && SubsetOf(tree, node.children[p])
  }

  lemma HoldsSomewhere(tree: Xml, node: Xml)
    requires tree.Element? && node.Element?
    ensures Holds(tree, node) <==> exists p: nat :: HeldAt(tree, node, p)
  {
    if Holds(tree, node) {
      assert HeldAt(tree, node, FirstHolding(tree, node.children));
    }
  }

  /** A match remains after a deletion exactly when two children held the tree before. */
  lemma MatchesRemainExactly(tree: Xml, node: Xml)
    requires tree.Element? && node.Element?
    ensures Holds(tree, AfterDeletion(tree, node))
       <==> exists p: nat, q: nat :: p < q && HeldAt(tree, node, p) && HeldAt(tree, node, q)
  {
    HoldsSomewhere(tree, AfterDeletion(tree, node));
    HoldsSomewhere(tree, node);
    if FirstHolding(tree, node.children) < |node.children| {
      if Holds(tree, AfterDeletion(tree, node)) {
        AnotherHeldBefore(tree, node);
      }
      if p: nat, q: nat :| p < q && HeldAt(tree, node, p) && HeldAt(tree, node, q) {
        assert q > FirstHolding(tree, node.children);
        HeldAfterDeletion(tree, node, q);
      }
    }
  }

  lemma AnotherHeldBefore(tree: Xml, node: Xml)
    requires tree.Element? && node.Element? && Holds(tree, AfterDeletion(tree, node)) && Holds(tree, node)
    ensures exists p: nat, q: nat :: p < q && HeldAt(tree, node, p) && HeldAt(tree, node, q)
  {
    var at, after := FirstHolding(tree, node.children), AfterDeletion(tree, node);
    HoldsSomewhere(tree, after);
    var p: nat :| HeldAt(tree, after, p);
    assert after.children[p] == node.children[if p < at then p else p + 1];
    assert p >= at && HeldAt(tree, node, at) && HeldAt(tree, node, p + 1);
  }

  lemma HeldAfterDeletion(tree: Xml, node: Xml, q: nat)
    requires tree.Element? && node.Element? && FirstHolding(tree, node.children) < q && HeldAt(tree, node, q)
    ensures HeldAt(tree, AfterDeletion(tree, node), q - 1)
  {
    ChildrenAfterDeletion(tree, node, q);
  }

  lemma ChildrenAfterDeletion(tree: Xml, node: Xml, q: nat)
    requires tree.Element? && node.Element? && FirstHolding(tree, node.children) < q < |node.children|
    ensures var after := AfterDeletion(tree, node).children; q - 1 < |after| && after[q - 1] == node.children[q]
  {
    WithoutOne(node.children, FirstHolding(tree, node.children), q);
  }

  lemma WithoutOne(nodes: seq<Xml>, at: nat, q: nat)
    requires at < q < |nodes|
    ensures |nodes[..at] + nodes[at + 1..]| == |nodes| - 1 && (nodes[..at] + nodes[at + 1..])[q - 1] == nodes[q]
  {
  }

  /** Of two equal children one is deleted, and the other is freed where it stays. */
  lemma AnEqualSiblingRemains()
    ensures var child := Element("a", [], []);
            Holds(child, AfterDeletion(child, Element("r", [], [child, child])))
  {
    var child := Element("a", [], []);
    var node := Element("r", [], [child, child]);
    assert HeldAt(child, node, 0) && HeldAt(child, node, 1);
    MatchesRemainExactly(child, node);
  }

  /** Two equal children match two different ones, but not the other way round. */
  lemma EqualSiblingsMatchOneWay()
    ensures var a, b := Element("a", [], []), Element("b", [], []);
            Matches(Element("r", [], [a, a]), Element("r", [], [a, b]))
            && !Matches(Element("r", [], [a, b]), Element("r", [], [a, a]))
  {
    var a, b := Element("a", [], []), Element("b", [], []);
    assert ElementPositions([a, a]) == {0, 1} == ElementPositions([a, b]);
    assert Matches(a, a) && !Matches(b, a);
    assert [a, b][0] == a && Found(a, [a, b]);
    assert AllFound([a, a], [a, b]);
    assert !Found(b, [a, a]) && [a, b][1] == b;
    assert !AllFound([a, b], [a, a]);
  }

  // ---------------------------------------------------------------- what holding a tree means

  /** Every attribute of the first is one of the second. */
  ghost predicate AttributesAmong(node1: Xml, node2: Xml)
    requires node1.Element? && node2.Element?
  {
    forall a | a in node1.attributes :: a in node2.attributes
  }

  lemma FoundAttributesAreAmong(node1: Xml, node2: Xml)
    requires node1.Element? && node2.Element?
    ensures AttributesFound(node1.attributes, node2.attributes) ==> AttributesAmong(node1, node2)
    ensures UniqueNames(node2.attributes) && AttributesAmong(node1, node2) ==>
              AttributesFound(node1.attributes, node2.attributes)
  {
    if AttributesFound(node1.attributes, node2.attributes) {
      forall a | a in node1.attributes ensures a in node2.attributes {
        var i :| 0 <= i < |node1.attributes| && node1.attributes[i] == a;
        LookupFindsAnAttribute(node2.attributes, a.name);
      }
    }
    if UniqueNames(node2.attributes) && AttributesAmong(node1, node2) {
      FoundAttributesAreASubset(node1.attributes, node2.attributes);
    }
  }

  /** The text of the first child occurs in the other one's. */
  ghost predicate TextOccurs(node1: Xml, node2: Xml)
    requires node1.Element? && node2.Element? && node1.children != []
  {
    node2.children != [] &&
    exists i: nat :: OccursAt(Content(node1.children[0]), Content(node2.children[0]), i)
  }

  /** A subset has the tag, has no other attributes or attribute values, and no other text or child elements. */
  lemma SubsetInWords(node1: Xml, node2: Xml)
    requires node1.Element? && node2.Element? && UniqueNames(node2.attributes)
    ensures SubsetOf(node1, node2) <==>
            && node1.tag == node2.tag && AttributesAmong(node1, node2)
            && (node1.children != [] ==> TextOccurs(node1, node2))
            && forall p: nat | p < |node1.children| && node1.children[p].Element? ::
                 exists q: nat :: q < |node2.children| && node2.children[q].Element?
                                  && Matches(node1.children[p], node2.children[q])
  {
    FoundAttributesAreAmong(node1, node2);
    assert AllFound(node1.children, node2.children) <==>
           forall p: nat | p < |node1.children| && node1.children[p].Element? ::
             Found(node1.children[p], node2.children);
  }

  /** A tree is inserted where every child has another tag or lacks one of its attributes or their values. */
  lemma OtherTreesAreInserted(tree: Xml, node: Xml)
    requires tree.Element? && node.Element?
    requires forall p: nat | p < |node.children| && node.children[p].Element? ::
               node.children[p].tag != tree.tag || !AttributesAmong(tree, node.children[p])
    ensures AfterInsertion(tree, node) == Element(node.tag, node.attributes, node.children + [tree])
  {
    forall p: nat | p < |node.children| && node.children[p].Element? ensures !SubsetOf(tree, node.children[p]) {
      FoundAttributesAreAmong(tree, node.children[p]);
    }
  }

  /** For a tree without children these are the only ones: others leave the node as it is. */
  lemma ChildlessTreesAreInsertedExactly(tree: Xml, node: Xml)
    requires tree.Element? && tree.children == [] && node.Element? && WellFormed(node)
    ensures AfterInsertion(tree, node) ==
            if exists p: nat :: p < |node.children| && node.children[p].Element? && node.children[p].tag == tree.tag
                                && AttributesAmong(tree, node.children[p])
            then node else Element(node.tag, node.attributes, node.children + [tree])
  {
    if p: nat :| p < |node.children| && node.children[p].Element? && node.children[p].tag == tree.tag
                 && AttributesAmong(tree, node.children[p]) {
      assert node.children[p] in node.children && WellFormed(node.children[p]);
      FoundAttributesAreAmong(tree, node.children[p]);
      assert SubsetOf(tree, node.children[p]);
    } else {
      OtherTreesAreInserted(tree, node);
    }
  }
}
