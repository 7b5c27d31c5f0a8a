# Convergent-state cores of CGNgine, Percolibrium and LINGugine

Dafny models of the parts of this repository that promise convergence or rest on a structural
invariant, and proofs of those promises. Each core is modelled in the form it has in C: loops over
heap nodes, arrays and cursors are methods with loop invariants, tied by their contracts to
functions whose laws are proved as lemmas.

| file | core |
|---|---|
| `PackageVersions.dfy`, `VersionLaws.dfy` | version tokenizer, the six direct comparators, the route by inversion |
| `SegmentCoordinates.dfy` | the two passes that measure and number nested text segments |
| `ItemLists.dfy`, `ItemEditing.dfy` | heap lists of items: cycle detector, comparison, rewiring in place, occurrence counts |
| `XmlMatching.dfy` | exact and subset matching of trees, insertion and deletion |
| `ModeStrings.dfy`, `AceSyntax.dfy`, `AclRepair.dfy`, `AclMeaning.dfy` | mode strings, the syntax check in front of them, repair of access control lists, what the entries mean |
| `DirectoryLists.dfy`, `ChangesDatabase.dfy` | byte format of directory lists, merge with the disk, migration |
| `Paths.dfy`, `RelativeLinks.dfy`, `LinkRoundTrips.dfy` | path helpers, compression, relative links, and whether they lead back |
| `Chunks.dfy`, `LineDeletion.dfy` | the lines of a chunk, and deleting them in a file or a region of it in place |
| `LineInsertion.dfy`, `InsertionLaws.dfy`, `InsertionBefore.dfy`, `InsertionBeforeLaws.dfy` | inserting them, in the orders "after" and "before" |
| `Associations.dfy` | the stored graph of named associations |
| `Stories.dfy` | the bounded search for stories in that graph |
| `StringOrder.dfy`, `FiniteSets.dfy`, `Options.dfy` | strcmp as an order; counting facts; values that may be missing |

`dafny verify dfyconfig.toml` checks everything.

## Where the code does not do what one would expect

Each of these is stated by the members named: on which inputs exactly, and for one such input what
happens.

- Exact XML matching is not symmetric: a tree with two siblings that match each other has a partner
  it matches one way only, and only such trees have one
  (`SymmetricExactlyWhenSiblingsDiffer`, `EqualSiblingsMatchOneWay`).
- Deleting a tree frees a child that stays linked in the document when a child matches and only a
  warning was promised, and when a second child matches (`DeleteTreeInNode`,
  `MatchesRemainExactly`, `AnEqualSiblingRemains`).
- "1" and "1." compare differently by the two version routes (`TrailingSeparatorSplitsTheRoutes`);
  `RoutesAgreeExactly` says when they agree.
- The verdict on access entries is overwritten by that on default entries, so with any default entry
  access entries are not checked (`DefaultsDecide`, `CheckCoversBothListsExactly`): "nonsense" passes
  (`NonsensePasses`), and so does "all:(r", which is then read past its end
  (`UncheckedEntriesCanLeaveTheirString`). The check itself reads past the end of "user:" and
  "group:" and of nothing else (`IdScanStaysInsideExactly`).
- A mode string with two operators in a row, such as "+-r", passes the syntax check, but the parser
  stops at the second operator and ignores the rest (`CheckedModesAreReadInBounds`,
  `PlusMinusIsCutShort`); a trailing comma, as in "rw,", denies everything (`TrailingCommaClears`,
  `TrailingCommaAfterReadWrite`).
- Checksums migrated from the old database are stored under keys that are never looked up
  (`MigratedHashesAreNotFound`). The traces of vanished files are removed even when no update is
  asked for (`CheckAndUpdateDirectory`); but where the promised name of the directory ends in a slash
  they never are, because the walk adds another one: for "/tmp/" the path "/tmp//x" is swept, and for
  "/" the path "//x" (`SweptPathIsThePathExactly`, `TracesOfVanishedFilesGoExactly`,
  `TracesBehindTmpStay`, `TracesOfRootFilesStay`).
- A relative link leads elsewhere if, at the first difference of the paths, one goes on with a slash
  and the other with quotes and a slash, or if the link's own path repeats a slash behind the last
  directory both share, unless that is the root (`LinkLeadsBackExactly`, `QuotesLeadAstray`,
  `RepeatedSlashesLeadAstray`). The scan for their common part leaves its strings if the source is
  empty or the link's own path is relative (`SecondScanStaysInsideExactly`).
- Deleting a chunk whose lines are not all the same need not converge; which deletions do is said by
  `DeletionConvergesExactly`, and `TwoLineDeletionsMayNotConverge` gives a file.
- For an empty line in a chunk, the line before it is compared with the file a second time, and as
  many characters are skipped: a, empty, b passes for a, a, a and is not inserted there
  (`ComparedAsInsertedExactly`, `SelectedLinesArePresentExactly`, `AnEmptyLineHidesOthers`).
- An empty file takes repeated lines of a chunk, a file with lines does not
  (`RepeatedLinesEnterAnEmptyFile`, `TwiceIntoTheEmptyFile`).
- A line that stands in front of a region, or is the line behind it, is not inserted at its end
  (`OneLineIsInTheRegionExactly`, `ALineInFrontKeepsItOut`).
- A region without a start never holds a line, and a preserved block is not looked for line by line,
  so lines are inserted at every run unless what is selected holds what is looked for
  (`BlockPromisesConvergeExactly`, `OneSelectedLineKeepsGrowing`).
- Before a region more than one line is inserted again at every run, because only the line next to
  the region is looked at (`RegionsBeforeConvergeExactly`, `TwoLinesKeepGrowing`).
- A full association file loses the mirror alias, exactly when both names are new and one of the
  files is full (`FullFilesLoseInverses`, `ReadingKeepsInversesExactly`); 1025 tuples are enough
  (`AStreamThatLosesInverses`).
- The story search records a path only where it meets itself. A type that forms no cycle tells
  nothing (`RisingTypesTellNothing`), associations that form a forest, each stored with its inverse,
  tell nothing (`ForestsTellNothing`, `ChainsTellNothing`), and the search from the contexts records
  only concepts that are associated with themselves (`OneStepDeep`). The subject itself is not on the
  path and may be returned to: a cycle within the depth is told from each of its concepts, that
  concept coming last (`CyclesAreTold`).
- Items with empty names are listed anew each time (`EmptyNamesAreNeverCounted`).

## How to read the models

- A C string is the sequence of its characters without the terminator; reading the terminator is
  an explicit case, and that no scan passes it is part of what is verified.
- `ProgrammingError` is `printf` in this copy, so the cycle detector is modelled as setting a
  flag and going on.
- The clock, the regular expression engine, the line selection, the digest, the user and group
  databases, the relevance of an association in a state of mind and whether the database or
  the kernel accepts a new value are parameters. Digests are not taken to be injective, and the
  clock is read once per tuple.
- libacl is its documented effect on entries and permission sets, libxml a datatype of trees, the
  changes database a map. `SeqSort` is modelled by its result, the sort of associations by
  relevance as any order, because its comparator does not order.
- "Open" in the story search means: no directory holds more than seven associations and nothing
  is irrelevant, so that the search is not cut short. A lasso is a path whose last step leads back
  to a concept on it, within the depth of the search.
- Weights are real numbers; the six digits they are printed with are not modelled.

## Model

| member | source | states |
|---|---|---|
| `PackageVersions.ParsePackageVersion` | RobIoTs/CGNgine/cgn-agent/vercmp_internal.c:178-209 | The appending tokenizer loop yields numerals of at most 29 characters and the one-character separators between them |
| `PackageVersions.SeparatorsAgree` | RobIoTs/CGNgine/cgn-agent/vercmp_internal.c:52-76 | Separators are compared position by position up to the shorter list |
| `PackageVersions.ComparePackageVersionsInternal` | RobIoTs/CGNgine/cgn-agent/vercmp_internal.c:33-176 | The loop with its six hand-written comparators and break flags: an error exactly on incompatible versions; otherwise less-than holds exactly if the first numerals are a proper prefix of the second or the first different numeral comes first, greater-than the other way around, equality exactly for the same non-empty text |
| `VersionLaws.TokenizingIsInvertibleExactly` | RobIoTs/CGNgine/cgn-agent/vercmp_internal.c:178-209 | Interleaving numerals and separators gives the version back if and only if no alphanumeric run is longer than 29 |
| `VersionLaws.WellFormedTiesAreEqual` | RobIoTs/CGNgine/cgn-agent/vercmp_internal.c:82-167 | Well-formed compatible versions with equal numerals are the same text |
| `VersionLaws.ErrorExactlyOnDifferentSeparators` | RobIoTs/CGNgine/cgn-agent/vercmp_internal.c:52-76 | On all versions and both routes, an error comes exactly when separators differ at a common position |
| `VersionLaws.RoutesAgreeExactly` | RobIoTs/CGNgine/cgn-agent/vercmp.c:123-172 | On all compatible versions: the inverted and swapped comparators agree with the direct ones if and only if ties of numerals are ties of text (GE, LE, EQ by two tests) or neither version is empty (NEQ) |
| `VersionLaws.WellFormedRoutesAgree` | RobIoTs/CGNgine/cgn-agent/vercmp.c:110-172 | On well-formed versions both routes give the same three-valued answer for every comparator, and EQ is what two LT tests say |
| `VersionLaws.TrailingSeparatorSplitsTheRoutes` | RobIoTs/CGNgine/cgn-agent/vercmp.c:163-165 | "1" and "1.": the direct GE says no, the inverted LT says yes |
| `VersionLaws.LessIsTheOrderOfTheNumerals` | RobIoTs/CGNgine/cgn-agent/vercmp_internal.c:82-167 | On compatible versions LT matches if and only if the numerals are a proper prefix or the first different one comes first, itself a proper prefix or smaller at the first different character |
| `VersionLaws.LongerAndGreaterVersionsComeLater` | RobIoTs/CGNgine/cgn-agent/vercmp_internal.c:82-167 | "1" comes before "1.2" and that before "1.3", not the other way around |
| `VersionLaws.NumeralsAreTakenWhole` | RobIoTs/CGNgine/cgn-agent/vercmp_internal.c:178-209 | A run of at most 29 letters and digits is one numeral, up to the separator behind it |
| `VersionLaws.LessIsIrreflexive` | RobIoTs/CGNgine/cgn-agent/vercmp.c:110-121 | No version is less than itself |
| `VersionLaws.LessIsTransitive` | RobIoTs/CGNgine/cgn-agent/vercmp.c:110-121 | LT is transitive on pairwise compatible versions |
| `VersionLaws.ExactlyOneOrderHolds` | RobIoTs/CGNgine/cgn-agent/vercmp.c:110-141 | On well-formed compatible versions exactly one of LT, EQ, GT holds |
| `SegmentCoordinates.SpanningTree.HandleToken` | AnthropIoHs/LINGugine/uTrans.c:400-434 | The depth and its two bounds stay the level, the maximum and the minimum of the stream so far |
| `SegmentCoordinates.SpanningTree.HandleBody` | AnthropIoHs/LINGugine/uTrans.c:438-443 | A body is appended and changes no bound |
| `SegmentCoordinates.SpanningTree.MarkBodyCoords` | AnthropIoHs/LINGugine/uTrans.c:447-469 | A body gets the counters and names of the vector as its coordinates; earlier ones stay |
| `SegmentCoordinates.SpanningTree.NumberSegments` | AnthropIoHs/LINGugine/uTrans.c:236-287 | For every stream, balanced or not, dimpos stays inside the vector, and each body and item gets the coordinates its stream prefix defines |
| `SegmentCoordinates.PassSegment` | AnthropIoHs/LINGugine/uTrans.c:259-287 | One turn of the second pass keeps the vector the padded stack of open regions |
| `SegmentCoordinates.LeaveRegion` | AnthropIoHs/LINGugine/uTrans.c:275-282 | The inner loop clears the vector from dimpos on |
| `SegmentCoordinates.ParseInput` | AnthropIoHs/LINGugine/uTrans.c:148-287 | Both passes: the bounds of the first are those the second needs |
| `SegmentCoordinates.BodyCoordinatesIncrease` | AnthropIoHs/LINGugine/uTrans.c:259-287 | Coordinates of successive bodies increase lexicographically, so no two bodies share them |
| `SegmentCoordinates.NumberingMovesOn` | AnthropIoHs/LINGugine/uTrans.c:259-287 | The counters never move back, and move on at every numbered segment |
| `SegmentCoordinates.CoordinatesCount` | AnthropIoHs/LINGugine/uTrans.c:259-287 | Every coordinate is the number of items, bodies and begin markers so far that stand directly in its region |
| `SegmentCoordinates.NumberedSegmentsCountOne` | AnthropIoHs/LINGugine/uTrans.c:259-267 | A numbered segment raises the innermost counter by one and changes nothing else |
| `SegmentCoordinates.OpenRegionKeepsItsPath` | AnthropIoHs/LINGugine/uTrans.c:269-282 | While a region is open, the counters above it and the name it was opened with stay |
| `ItemLists.EveryListHasAShape` | Percolibrium/Percolators/item.c:31-55 | Following the links of a finite heap ends or runs into a cycle: every list has a lead-in and a cycle length |
| `ItemLists.CycleVerify` | Percolibrium/Percolators/item.c:59-61 | Reports a cycle when the pointers meet, and a fault when the slow pointer is null where the fast one is not |
| `ItemLists.ListLenTurns` | Percolibrium/Percolators/item.c:423-437 | The loop of ListLen with the macros on reports a cycle exactly when the model of the pointers does, never meets a null slow pointer, and ends only at the end of the list |
| `ItemLists.CheckedListLen` | Percolibrium/Percolators/item.c:423-437 | On an acyclic list that loop reports nothing and counts the nodes |
| `ItemLists.EndingListsAreNeverReported` | Percolibrium/Percolators/item.c:31-55 | On an acyclic list the detector never reports |
| `ItemLists.CyclesAreReportedInTime` | Percolibrium/Percolators/item.c:31-55 | With lead-in L and cycle length M it reports within 2*(L+M) turns |
| `ItemLists.DetectCycle` | Percolibrium/Percolators/item.c:57-69 | After twice as many turns as there are nodes, a report has come if and only if the list does not end |
| `ItemLists.ListLen` | Percolibrium/Percolators/item.c:423-437 | The number of nodes |
| `ItemLists.ItemIsInList` | Percolibrium/Percolators/item.c:76-89 | Whether the node is one of the list |
| `ItemLists.IsItemIn` | Percolibrium/Percolators/item.c:199-219 | Whether the name is in the list; the empty name always is |
| `ItemLists.ReturnItemIn` | Percolibrium/Percolators/item.c:135-155 | The first node of the name; the empty name is never found |
| `ItemLists.ListsCompare` | Percolibrium/Percolators/item.c:235-255 | Equal lengths, and every non-empty name of the first is in the second |
| `ItemLists.ComparisonIsSetEquality` | Percolibrium/Percolators/item.c:222-255 | On duplicate-free lists of non-empty names the comparison is equality of the sets of names |
| `ItemEditing.ReverseItemList` | Percolibrium/Percolators/item.c:94-110 | In place, the same nodes in reverse order, still acyclic |
| `ItemEditing.PrependFullItem` | Percolibrium/Percolators/item.c:363-377 | A new node in front, the list behind it untouched |
| `ItemEditing.ItemList.PrependItem` | Percolibrium/Percolators/item.c:345-359 | A new node with zero counter in front |
| `ItemEditing.ItemList.IdempPrependItem` | Percolibrium/Percolators/item.c:299-309 | Adds only a name that is not there; the empty name is always added |
| `ItemEditing.ItemList.IdempItemCount` | Percolibrium/Percolators/item.c:327-341 | Counts up the first node of the name or adds it |
| `ItemEditing.StepsInWords` | Percolibrium/Percolators/item.c:299-341 | A name that is there is not added again; its first item, and nothing else, is counted once more; other names and the empty one are added in front |
| `ItemEditing.CopyList` | Percolibrium/Percolators/item.c:441-465 | A fresh list with the same contents in the same order; complains about a destination in use and goes on |
| `ItemEditing.EndOfList` | Percolibrium/Percolators/item.c:282-295 | The last node, or the undefined item for the empty list |
| `ItemEditing.SharedEntryMeansSharedTail` | Percolibrium/Percolators/item.c:469-485 | If acyclic lists share any node, the tail of the first is in the second: the test of ConcatLists is sufficient |
| `ItemEditing.ConcatLists` | Percolibrium/Percolators/item.c:469-485 | Joins exactly disjoint lists; then the result is acyclic, the first list followed by the second, in place |
| `ItemEditing.JoinedLinksMakeAChain` | Percolibrium/Percolators/item.c:469-485 | Relinking the tail of one chain to another disjoint chain makes one chain |
| `ItemEditing.CountersAddUp` | Percolibrium/Percolators/item.c:327-341 | Over any stream of names, counters plus number of nodes of a name is the number of its occurrences |
| `ItemEditing.NonEmptyNamesAreListedOnce` | Percolibrium/Percolators/item.c:327-341 | Every non-empty name has at most one node |
| `ItemEditing.CounterPlusOneIsTheHistogram` | Percolibrium/Percolators/item.c:327-341 | So the counter of a non-empty name is one less than its occurrences |
| `ItemEditing.EmptyNamesAreNeverCounted` | Percolibrium/Percolators/item.c:135-155 | Over any stream the empty names are listed anew each time, each with counter zero |
| `XmlMatching.XmlNodesCompare` | RobIoTs/CGNgine/cgn-agent/files_editxml.c:1848-1884 | The four tests decide exact matching |
| `XmlMatching.XmlNodesCompareAttributes` | RobIoTs/CGNgine/cgn-agent/files_editxml.c:1888-1947 | Equal counts and every attribute of the first found in the second with its value |
| `XmlMatching.XmlNodesCompareNodes` | RobIoTs/CGNgine/cgn-agent/files_editxml.c:1951-1985 | Equal child counts and every child of the first matched by some child of the second |
| `XmlMatching.XmlVerifyNodeInNodeExact` | RobIoTs/CGNgine/cgn-agent/files_editxml.c:2305-2328 | Whether some child of the node matches |
| `XmlMatching.XmlNodesSubset` | RobIoTs/CGNgine/cgn-agent/files_editxml.c:2065-2101 | The four tests decide subset matching |
| `XmlMatching.XmlNodesSubsetOfAttributes` | RobIoTs/CGNgine/cgn-agent/files_editxml.c:2105-2151 | Every attribute of the first is in the second |
| `XmlMatching.XmlNodesSubsetOfNodes` | RobIoTs/CGNgine/cgn-agent/files_editxml.c:2155-2182 | Every child of the first is matched exactly by some child of the second |
| `XmlMatching.XmlVerifyNodeInNodeSubset` | RobIoTs/CGNgine/cgn-agent/files_editxml.c:2332-2354 | The first child that the node is a subset of |
| `XmlMatching.XmlVerifyAttributeInNode` | RobIoTs/CGNgine/cgn-agent/files_editxml.c:2226-2255 | Finds the attribute by name and value |
| `XmlMatching.DocumentNode.InsertTreeInNode` | RobIoTs/CGNgine/cgn-agent/files_editxml.c:1181-1256 | Inserts at the end unless a child matches, in place |
| `XmlMatching.DocumentNode.DeleteTreeInNode` | RobIoTs/CGNgine/cgn-agent/files_editxml.c:1099-1177 | Removes the first child the tree is a subset of; a child that stays linked is freed exactly if one holds the tree and only a warning is promised, or another one remains |
| `XmlMatching.MatchesRemainExactly` | RobIoTs/CGNgine/cgn-agent/files_editxml.c:1150-1173 | A match remains after a deletion exactly when two children held the tree |
| `XmlMatching.AnEqualSiblingRemains` | RobIoTs/CGNgine/cgn-agent/files_editxml.c:1150-1173 | Of two equal children one is deleted and the other one remains |
| `XmlMatching.AttributeComparisonIsSetEquality` | RobIoTs/CGNgine/cgn-agent/files_editxml.c:1888-1947 | With unique names, attribute comparison is equality of the name-value maps, hence symmetric |
| `XmlMatching.MatchingIsReflexive` | RobIoTs/CGNgine/cgn-agent/files_editxml.c:1848-1884 | Every well-formed tree matches itself |
| `XmlMatching.MatchingIsTransitive` | RobIoTs/CGNgine/cgn-agent/files_editxml.c:1848-1985 | Exact matching is transitive on all trees |
| `XmlMatching.MatchingIsSymmetric` | RobIoTs/CGNgine/cgn-agent/files_editxml.c:1848-1985 | It is symmetric where no two siblings match at any depth, by a one-to-one map between equally many children |
| `XmlMatching.OneSidedMatchExists` | RobIoTs/CGNgine/cgn-agent/files_editxml.c:1951-1985 | Any tree with matching siblings has a partner it matches that does not match it |
| `XmlMatching.EqualSiblingsMatchOneWay` | RobIoTs/CGNgine/cgn-agent/files_editxml.c:1951-1985 | A node with the children a, a matches one with a, b, and not back |
| `XmlMatching.SymmetricExactlyWhenSiblingsDiffer` | RobIoTs/CGNgine/cgn-agent/files_editxml.c:1951-1985 | A tree matches only what matches it back if and only if no two of its siblings match at any depth |
| `XmlMatching.SubsetIsReflexive` | RobIoTs/CGNgine/cgn-agent/files_editxml.c:2065-2101 | Every well-formed tree is a subset of itself |
| `XmlMatching.SubsetIsTransitive` | RobIoTs/CGNgine/cgn-agent/files_editxml.c:2065-2222 | Subset matching is transitive |
| `XmlMatching.MatchingNodesAreSubsets` | RobIoTs/CGNgine/cgn-agent/files_editxml.c:2065-2101 | An exact match is a subset match |
| `XmlMatching.InsertionConverges` | RobIoTs/CGNgine/cgn-agent/files_editxml.c:1181-1256 | After insertion the tree is held, and a second insertion changes nothing |
| `XmlMatching.DeletionUndoesInsertion` | RobIoTs/CGNgine/cgn-agent/files_editxml.c:1099-1177 | Deleting a tree that was not held before its insertion restores the node |
| `XmlMatching.SubsetInWords` | RobIoTs/CGNgine/cgn-agent/files_editxml.c:2065-2101 | A subset has the same tag, only attributes the other one has with these values, text that occurs in the other text, and child elements that all match one of the other ones |
| `XmlMatching.OtherTreesAreInserted` | RobIoTs/CGNgine/cgn-agent/files_editxml.c:1181-1256 | A tree is inserted where every child has another tag or lacks one of its attributes or their values |
| `XmlMatching.ChildlessTreesAreInsertedExactly` | RobIoTs/CGNgine/cgn-agent/files_editxml.c:1181-1256 | A tree without children is inserted exactly if no child has its tag and all its attributes with their values |
| `ModeStrings.ParseModePosixLinux` | RobIoTs/CGNgine/cgn-agent/acl_posix.c:950-1107 | The cursor loop acts on the permission set as one keep-and-add effect; a mode string of one entry leaves exactly what its letters say: with + the old permissions and those named, with - the old ones without them, otherwise those named |
| `ModeStrings.ParseEntry` | RobIoTs/CGNgine/cgn-agent/acl_posix.c:974-1093 | One entry: operator, permissions, native permissions |
| `ModeStrings.EntriesMeanTheirLetters` | RobIoTs/CGNgine/cgn-agent/acl_posix.c:974-1093 | One entry grants or takes read for r, write for w and execute for x, native letters included |
| `ModeStrings.EntriesActInTurn` | RobIoTs/CGNgine/cgn-agent/acl_posix.c:1095-1103 | Of several entries the first one acts by its letters, then the others |
| `ModeStrings.ParsePerms` | RobIoTs/CGNgine/cgn-agent/acl_posix.c:1005-1045 | A run of permission letters |
| `ModeStrings.Permset.AddPerm` | RobIoTs/CGNgine/cgn-agent/acl_posix.c:1030-1033 | Adds a permission |
| `ModeStrings.Permset.DeletePerm` | RobIoTs/CGNgine/cgn-agent/acl_posix.c:1034-1037 | Deletes a permission |
| `ModeStrings.ActsInTurn` | RobIoTs/CGNgine/cgn-agent/acl_posix.c:950-1107 | Effects in turn compose to one keep-and-add effect |
| `ModeStrings.ActingTwiceIsActingOnce` | RobIoTs/CGNgine/cgn-agent/acl_posix.c:950-1107 | Every such effect is idempotent |
| `AceSyntax.CheckModeSyntax` | RobIoTs/CGNgine/cgn-agent/verify_acl.c:366-432 | Walks the mode string and hands the cursor back at its end |
| `AceSyntax.CheckACESyntax` | RobIoTs/CGNgine/cgn-agent/verify_acl.c:260-364 | The subject, the id, the mode and the permission type are each where they must be |
| `AceSyntax.IdScanStaysInsideExactly` | RobIoTs/CGNgine/cgn-agent/verify_acl.c:310-337 | The scan for the end of an id stays inside the string exactly if something follows "user:" or "group:" |
| `AceSyntax.CheckACLSyntax` | RobIoTs/CGNgine/cgn-agent/verify_acl.c:104-190 | The two loops; the verdict is that of the last list looked at |
| `AceSyntax.CheckCoversBothListsExactly` | RobIoTs/CGNgine/cgn-agent/verify_acl.c:165-189 | Whatever the access entries are, a passed check means that both lists are valid, exactly if there are no defaults or the defaults are at fault |
| `AceSyntax.DefaultsDecide` | RobIoTs/CGNgine/cgn-agent/verify_acl.c:165-189 | With any default entry the verdict is the same for all lists of access entries |
| `AceSyntax.NonsensePasses` | RobIoTs/CGNgine/cgn-agent/verify_acl.c:165-189 | "nonsense" passes in front of the default "all:r" |
| `AceSyntax.EntryReadAsChecked` | RobIoTs/CGNgine/cgn-agent/acl_posix.c:974-1104 | With at most one operator parser and check stop at the same place, with more the parser stops at the second |
| `AceSyntax.CheckedModesAreReadInBounds` | RobIoTs/CGNgine/cgn-agent/acl_posix.c:974-1104 | The parser never leaves a checked mode string, and reads all of it if and only if no entry has two operators |
| `AceSyntax.PlusMinusIsCutShort` | RobIoTs/CGNgine/cgn-agent/acl_posix.c:974-1104 | "+-r" passes the check to its end, its first character is read, and nothing is permitted or denied |
| `AceSyntax.TrailingCommaClears` | RobIoTs/CGNgine/cgn-agent/acl_posix.c:974-1104 | A checked mode string that ends in a comma denies everything |
| `AceSyntax.TrailingCommaAfterReadWrite` | RobIoTs/CGNgine/cgn-agent/acl_posix.c:974-1104 | So does "rw," |
| `AclRepair.MapHoldsEntries` | RobIoTs/CGNgine/cgn-agent/acl_posix.c:555-643 | On unique keys a list of entries is a table |
| `AclRepair.FindACE` | RobIoTs/CGNgine/cgn-agent/acl_posix.c:555-643 | The first entry of the key |
| `AclRepair.PermsetEquals` | RobIoTs/CGNgine/cgn-agent/acl_posix.c:758-788 | 0 exactly when the two sets are equal |
| `AclRepair.ACLEquals` | RobIoTs/CGNgine/cgn-agent/acl_posix.c:651-732 | 0 exactly when lists with unique keys are the same table, whatever their order |
| `AclRepair.SameTable` | RobIoTs/CGNgine/cgn-agent/acl_posix.c:651-732 | Equally many entries, each found in the other with equal permissions, make equal tables |
| `AclRepair.CheckedEntriesHaveTheirMode` | RobIoTs/CGNgine/cgn-agent/acl_posix.c:796-941 | On a checked entry the parser of the subject stops where the check did, in front of a mode string that is read in bounds |
| `AclRepair.CheckedEntriesAreReadInBounds` | RobIoTs/CGNgine/cgn-agent/acl_posix.c:208-303 | Whatever the user and group databases know, no checked entry is read past its end |
| `AclRepair.UncheckedEntriesCanLeaveTheirString` | RobIoTs/CGNgine/cgn-agent/acl_posix.c:950-1107 | "all:(r" passes in front of a default entry and is read past its end |
| `AclRepair.Acl.EntryFor` | RobIoTs/CGNgine/cgn-agent/acl_posix.c:221-268 | Find-then-create keeps keys unique |
| `AclRepair.Acl.CalcMask` | RobIoTs/CGNgine/cgn-agent/acl_posix.c:305-316 | acl_calc_mask (section 23.4.2 of IEEE 1003.1e draft 17): the union over the group class, and nothing else changes |
| `AclRepair.ApplyAce` | RobIoTs/CGNgine/cgn-agent/acl_posix.c:208-303 | One entry that is read in bounds, checked or not, changes the table by its effect on its key |
| `AclRepair.FileAcl.BuildAcl` | RobIoTs/CGNgine/cgn-agent/acl_posix.c:185-316 | The loop over the promised entries, or failure at the first unknown subject |
| `AclRepair.FileAcl.CheckPosixLinuxACEs` | RobIoTs/CGNgine/cgn-agent/acl_posix.c:138-372 | Noop exactly when the target is what is there; otherwise warned, failed, or the stored list becomes the target |
| `AclRepair.ChangesActKeyByKey` | RobIoTs/CGNgine/cgn-agent/acl_posix.c:208-303 | Repeated entries for one key compose to one effect; unmentioned keys stay |
| `AclRepair.OnlyTheOrderPerKeyMatters` | RobIoTs/CGNgine/cgn-agent/acl_posix.c:208-303 | Two lists with the same entries per key, in the same order per key, have the same effect on every table |
| `AclRepair.EffectOfTheEntriesFor` | RobIoTs/CGNgine/cgn-agent/acl_posix.c:208-303 | The effect on a key is that of the entries for it, taken out of the list in order |
| `AclRepair.RepairConverges` | RobIoTs/CGNgine/cgn-agent/acl_posix.c:185-330 | For append and overwrite, the target of a target is itself, recomputed mask included |
| `AclRepair.ComputedMaskBoundsTheGroupClass` | RobIoTs/CGNgine/cgn-agent/acl_posix.c:305-316 | Without a promised mask, the mask bounds every group-class entry |
| `AclMeaning.UsersByName` | RobIoTs/CGNgine/cgn-agent/acl_posix.c:814-857 | "user:*:" is the owner, "user:id:" the user of that id, or unknown |
| `AclMeaning.GroupsByName` | RobIoTs/CGNgine/cgn-agent/acl_posix.c:859-902 | "group:*:" is the owning group, "group:id:" the group of that id, or unknown |
| `AclMeaning.OthersAndMask` | RobIoTs/CGNgine/cgn-agent/acl_posix.c:904-914 | "all:" are the others, "mask:" is the mask |
| `AclMeaning.SubjectsAreFound` | RobIoTs/CGNgine/cgn-agent/verify_acl.c:267-331 | The mode string is looked for behind a non-empty id, behind "all:", and for POSIX lists behind "mask:" |
| `AclMeaning.PlainEntriesPassExactly` | RobIoTs/CGNgine/cgn-agent/verify_acl.c:333-364 | An entry of one operator at most, letters and native letters passes exactly if the list knows the native ones and nothing but ":allow" follows |
| `AclMeaning.OneEntryMeansItsLetters` | RobIoTs/CGNgine/cgn-agent/acl_posix.c:185-330 | The list one entry asks for: its key has what the letters say, other keys but the mask what they had, or are gone for overwrite |
| `AclMeaning.OwnerMayRead` | RobIoTs/CGNgine/cgn-agent/acl_posix.c:185-330 | "user:*:=r" leaves the owner exactly the permission to read |
| `AclMeaning.UnmentionedKeys` | RobIoTs/CGNgine/cgn-agent/acl_posix.c:187-204 | Keys no entry is about stay for append and go for overwrite |
| `AclMeaning.MaskIsTheUnion` | RobIoTs/CGNgine/cgn-agent/acl_posix.c:305-316 | Without a promised mask, the mask has a permission if and only if a named user, the owning group or a named group has it |
| `AclRepair.RepairTwice` | RobIoTs/CGNgine/cgn-agent/acl_posix.c:138-372 | The second of two runs reports nothing to do, even if the system returns the list in another order |
| `DirectoryLists.ReadEntries` | RobIoTs/CGNgine/cgn-agent/files_changes.c:356-395 | The memchr loop decodes NUL-separated names or fails on a missing NUL |
| `DirectoryLists.WriteEntries` | RobIoTs/CGNgine/cgn-agent/files_changes.c:411-445 | Sizing and copying loops write each name with its NUL, exactly filling the buffer |
| `DirectoryLists.ReadingBackAWrittenList` | RobIoTs/CGNgine/cgn-agent/files_changes.c:356-445 | Reading back a written list of NUL-free names returns it |
| `DirectoryLists.RewritingAReadValue` | RobIoTs/CGNgine/cgn-agent/files_changes.c:356-445 | A value is readable if and only if it is empty or ends in NUL, and rewriting what was read gives the same bytes |
| `DirectoryLists.SeqBinaryIndexOf` | RobIoTs/CGNgine/libutils/sequence.c:177-208 | On a strictly sorted list the binary search finds the name if and only if it is there |
| `DirectoryLists.SortingSorts` | RobIoTs/CGNgine/libutils/sequence.c:252-255 | Sorting distinct names: strictly increasing, the same set |
| `DirectoryLists.SortedListsAreUnique` | RobIoTs/CGNgine/cgn-agent/files_changes.c:198-206 | A strictly sorted list is determined by its set of names |
| `StringOrder.CompareIsZeroOnlyOnEqual` | RobIoTs/CGNgine/cgn-agent/files_changes.c:574-574 | The comparison is zero only on equal names |
| `StringOrder.CompareIsAntisymmetric` | RobIoTs/CGNgine/cgn-agent/files_changes.c:574-574 | Swapping the names negates it |
| `StringOrder.BeforeIsTransitive` | RobIoTs/CGNgine/cgn-agent/files_changes.c:574-574 | The order is transitive |
| `StringOrder.BeforeExactly` | RobIoTs/CGNgine/cgn-agent/files_changes.c:574-574 | A name comes before another one exactly if it is a proper prefix or has the smaller character at the first difference |
| `ChangesDatabase.TracesAreApart` | RobIoTs/CGNgine/cgn-agent/files_changes.c:74-91 | Different files never share a hash or stat key, and no directory key is one |
| `ChangesDatabase.ChangesDb.GetDirectoryList` | RobIoTs/CGNgine/cgn-agent/files_changes.c:356-409 | An absent or empty value reads as the empty list |
| `ChangesDatabase.ChangesDb.SetDirectoryList` | RobIoTs/CGNgine/cgn-agent/files_changes.c:411-445 | An empty list deletes the key |
| `ChangesDatabase.ChangesDb.AddMigratedFileToDirectoryList` | RobIoTs/CGNgine/cgn-agent/files_changes.c:159-209 | The base name enters the list of its directory, unless the database does not take it; every list stays sorted and readable |
| `ChangesDatabase.MigrationOfOneFile` | RobIoTs/CGNgine/cgn-agent/files_changes.c:159-209 | One file adds its name to one list and leaves every other |
| `ChangesDatabase.CutAtTheLastSlash` | RobIoTs/CGNgine/cgn-agent/files_changes.c:159-209 | Directory, slash and base name are the file name, and the base name has no slash |
| `ChangesDatabase.MigrationKeepsListsSorted` | RobIoTs/CGNgine/cgn-agent/files_changes.c:211-297 | After any keys in any order every list is strictly sorted and holds the previous names plus the migrated ones |
| `ChangesDatabase.MigrationOrderDoesNotMatter` | RobIoTs/CGNgine/cgn-agent/files_changes.c:211-297 | The result depends on the set of migrated files only |
| `ChangesDatabase.MigratedHashesAreNotFound` | RobIoTs/CGNgine/cgn-agent/files_changes.c:235-241 | No key that is looked up equals a migrated hash key |
| `ChangesDatabase.ChangesDb.RemoveAllFileTraces` | RobIoTs/CGNgine/cgn-agent/files_changes.c:345-354 | Exactly the hash and stat keys of the path go |
| `ChangesDatabase.OnlyTheirTracesAreLost` | RobIoTs/CGNgine/cgn-agent/files_changes.c:345-354 | No trace of another file and no directory list is lost |
| `ChangesDatabase.ListsSurvive` | RobIoTs/CGNgine/cgn-agent/files_changes.c:345-354 | Removing traces leaves every directory list |
| `ChangesDatabase.ChangesDb.CheckAndUpdateDirectory` | RobIoTs/CGNgine/cgn-agent/files_changes.c:543-638 | On equal sets Noop and nothing changes; on others Fail and every list reads as before, unless an update is asked for and taken: then Change, the sorted disk list reads back, and the other lists stay. The vanished files are logged and the paths directory/name swept |
| `ChangesDatabase.SweptPathIsThePathExactly` | RobIoTs/CGNgine/cgn-agent/verify_files_utils.c:2282-2292 | For any name of a directory, the path swept for a file is the one it is known by exactly if AddSlash adds a slash |
| `ChangesDatabase.TracesOfVanishedFilesGoExactly` | RobIoTs/CGNgine/cgn-agent/files_changes.c:603-608 | What is kept for a file that has vanished goes exactly then |
| `ChangesDatabase.TracesOfVanishedFilesGo` | RobIoTs/CGNgine/cgn-agent/files_changes.c:603-608 | What is kept for the path directory/name goes when the name has vanished |
| `ChangesDatabase.TracesBehindASlashStay` | RobIoTs/CGNgine/cgn-agent/files_changes.c:603-608 | In a directory whose name ends in a slash what is kept for a file stays, whatever is swept there |
| `ChangesDatabase.TracesOfRootFilesStay` | RobIoTs/CGNgine/cgn-agent/files_changes.c:603-608 | So in the root directory |
| `ChangesDatabase.TracesBehindTmpStay` | RobIoTs/CGNgine/cgn-agent/files_changes.c:603-608 | So for x in "/tmp/": "/tmp//x" is swept |
| `ChangesDatabase.ChangesDb.MergeWalk` | RobIoTs/CGNgine/cgn-agent/files_changes.c:561-619 | The merge walk terminates and does so for both sorted lists |
| `ChangesDatabase.MergeStep` | RobIoTs/CGNgine/cgn-agent/files_changes.c:561-619 | One turn of the walk keeps what has been merged so far right |
| `ChangesDatabase.MissingAreTheRecordedNotOnDisk` | RobIoTs/CGNgine/cgn-agent/files_changes.c:599-612 | Missing names are the recorded ones that are not on disk |
| `ChangesDatabase.EachVanishedFileIsLoggedOnce` | RobIoTs/CGNgine/cgn-agent/files_changes.c:599-612 | The logged paths are exactly those, once each |
| `ChangesDatabase.UpdatingConverges` | RobIoTs/CGNgine/cgn-agent/files_changes.c:543-638 | After a run that may write, the sorted disk list is recorded, a second run is a no-op, and other lists are untouched |
| `RelativeLinks.CompressPath` | RobIoTs/CGNgine/libpromises/files_names.c:547-606 | For an absolute path of at most 3968 characters the node loop gives the path that walking it leads to, or nothing if a node is longer than 257 characters; for others what the laws on compression are about |
| `RelativeLinks.AbsolutePathsAreCompressedExactly` | RobIoTs/CGNgine/libpromises/files_names.c:547-606 | An absolute path of at most 3968 characters is compressed to the path walking it leads to, if and only if no node is longer than 257 characters; a longer one is refused in any path |
| `RelativeLinks.TakenFromTheRoot` | RobIoTs/CGNgine/libpromises/files_names.c:547-606 | A path without a slash or dot in front is compressed as if it began at the root |
| `RelativeLinks.EnteredAndLeft` | RobIoTs/CGNgine/libpromises/files_names.c:584-593 | /a/../b is compressed to /b |
| `RelativeLinks.CompressionIsCanonical` | RobIoTs/CGNgine/libpromises/files_names.c:547-606 | Whatever does not begin with a dot compresses to a canonical absolute path, if at all |
| `RelativeLinks.CompressedPathsLeadTheSameWay` | RobIoTs/CGNgine/libpromises/files_names.c:547-606 | The compressed path names the directory that walking the path leads to, ".." at the root staying there |
| `Paths.ChopOnSingleSlashes` | RobIoTs/CGNgine/libpromises/files_names.c:401-444 | The last node goes with its slash; the root stays |
| `RelativeLinks.VerifyRelativeLink` | RobIoTs/CGNgine/cgn-agent/files_links.c:244-314 | Both scans stay inside their strings; the text written is one "../" per directory below the anchor and the rest of the target, or nothing if it does not fit |
| `RelativeLinks.LinkIsMadeExactly` | RobIoTs/CGNgine/cgn-agent/files_links.c:244-314 | For an absolute target that is not too long a link is made if and only if no node is too long, it does not lead to the path of the link, and the text fits; the text is one "../" per directory below the anchor and the rest of the target |
| `RelativeLinks.ShortLinksAreMade` | RobIoTs/CGNgine/cgn-agent/files_links.c:244-314 | Short paths get their link unless the target is the path of the link |
| `LinkRoundTrips.SecondScanStaysInsideExactly` | RobIoTs/CGNgine/cgn-agent/files_links.c:277-281 | The scan back finds a place inside both strings exactly if there is a source and the path of the link is absolute |
| `RelativeLinks.RelativePath` | RobIoTs/CGNgine/cgn-agent/files_links.c:271-283 | The anchor is the last position before the mismatch where both paths go on absolutely |
| `RelativeLinks.ClimbAndDescend` | RobIoTs/CGNgine/cgn-agent/files_links.c:285-311 | Counts the slashes and joins the steps up |
| `RelativeLinks.AbsLinkPath` | RobIoTs/CGNgine/cgn-agent/files_links.c:691-742 | Skips the steps in front and drops a node for each |
| `RelativeLinks.LinkTarget` | RobIoTs/CGNgine/cgn-agent/files_links.c:67-87 | The path VerifyLink checks |
| `RelativeLinks.TakenFromTheDirectory` | RobIoTs/CGNgine/cgn-agent/files_links.c:67-87 | A relative target without steps in front is taken from the directory of the link |
| `RelativeLinks.DroppingNodes` | RobIoTs/CGNgine/cgn-agent/files_links.c:724-728 | Dropping one node per slash behind a position leads to the directory above it |
| `LinkRoundTrips.WhatTheTextSays` | RobIoTs/CGNgine/cgn-agent/files_links.c:691-742 | What a link text read back leads to, for any anchor and any path of the link |
| `LinkRoundTrips.RepeatedSlashesCount` | RobIoTs/CGNgine/cgn-agent/files_links.c:285-291 | The steps up are counted on the path as written: with a repeated slash behind the anchor there are more of them than directories |
| `LinkRoundTrips.WhereALinkLeads` | RobIoTs/CGNgine/cgn-agent/files_links.c:691-742 | Without repeated slashes it leads from the directory of the anchor down the rest of the target |
| `LinkRoundTrips.LinkLeadsBackExactly` | RobIoTs/CGNgine/cgn-agent/files_links.c:244-314 | For every source and every absolute link path, quoted or not: the path VerifyLink checks is the compressed source if and only if quotes do not hide a slash at the first difference and, unless the paths part at the root, no slash is repeated behind the anchor |
| `LinkRoundTrips.RelativeLinksRoundTrip` | RobIoTs/CGNgine/cgn-agent/files_links.c:244-314 | So without quotes exactly if no slash is repeated there |
| `LinkRoundTrips.QuotesLeadAstray` | RobIoTs/CGNgine/cgn-agent/files_links.c:277-281 | The source /a"/b compresses to itself; linked from /a/c the text .//b is written, which leads to /a//b |
| `LinkRoundTrips.RepeatedSlashesLeadAstray` | RobIoTs/CGNgine/cgn-agent/files_links.c:285-311 | Linked from /r/a//c to /r/b the text ./../../b is written, which leads to /b |
| `Chunks.ComparedAsInsertedExactly` | RobIoTs/CGNgine/cgn-agent/files_editline.c:812-815 | A chunk is compared as it is inserted exactly if no line fills the buffer and no empty line follows one that is not; then line by line |
| `Chunks.LinesAreTheChunk` | RobIoTs/CGNgine/cgn-agent/files_editline.c:1667-1676 | The lines of a chunk are what stands between its newlines, the empty line at the end included |
| `Chunks.LinesHaveNoNewline` | RobIoTs/CGNgine/cgn-agent/files_editline.c:1667-1676 | No line holds a newline |
| `Chunks.OneLineChunks` | RobIoTs/CGNgine/cgn-agent/files_editline.c:812-815 | A chunk without a newline that fits the buffer is one line, compared and inserted as it is |
| `Chunks.AnEmptyLineIsComparedAsTheLineBefore` | RobIoTs/CGNgine/cgn-agent/files_editline.c:812-815 | A chunk of the lines a, empty, b is compared as a, a, a |
| `LineDeletion.MatchRegion` | RobIoTs/CGNgine/cgn-agent/files_editline.c:803-868 | The cursor loop counts what the chunk is compared as: all of it, one after the other, before the end of the region, or none |
| `LineDeletion.LineFile.UnlinkLine` | RobIoTs/CGNgine/cgn-agent/files_editline.c:1053-1081 | Takes exactly one node out, wherever the search for its predecessor starts |
| `LineDeletion.LineFile.DeleteLines` | RobIoTs/CGNgine/cgn-agent/files_editline.c:1041-1084 | Takes the matched nodes out |
| `LineDeletion.LineFile.DeletePromisedLinesMatching` | RobIoTs/CGNgine/cgn-agent/files_editline.c:953-1099 | For any chunk and region: everything outside stays, inside exactly the kept lines stay, in place and in order; the edits are counted |
| `LineDeletion.TheFirstMatchGoes` | RobIoTs/CGNgine/cgn-agent/files_editline.c:1000-1091 | At the first selected line where the chunk matches (or does not, where that is asked) as many lines go as the chunk has (or one), the lines in front stay, and the deletion goes on behind them |
| `LineDeletion.WithoutAMatchNothingGoes` | RobIoTs/CGNgine/cgn-agent/files_editline.c:1000-1091 | Without such a line nothing goes |
| `LineDeletion.OneLineDeletionCounts` | RobIoTs/CGNgine/cgn-agent/files_editline.c:1000-1091 | For a promiser of one line no copy stays of a selected line that matches as asked, and every copy of any other line |
| `LineDeletion.OneLineDeletionFilters` | RobIoTs/CGNgine/cgn-agent/files_editline.c:1000-1091 | For a promiser of one line the region is filtered |
| `LineDeletion.OneLineDeletionConverges` | RobIoTs/CGNgine/cgn-agent/files_editline.c:1000-1091 | A second run deletes nothing |
| `LineDeletion.OneLineDeletionByRegions` | RobIoTs/CGNgine/cgn-agent/files_editline.c:1000-1091 | Deleting region by region is deleting from the whole |
| `LineDeletion.DeletionConvergesExactly` | RobIoTs/CGNgine/cgn-agent/files_editline.c:1000-1091 | Without wildcards a second run never deletes anything exactly if the first line cannot be selected, all lines are the same, or, where what does not match goes, no later line can be selected |
| `LineDeletion.TwoLineDeletionsMayNotConverge` | RobIoTs/CGNgine/cgn-agent/files_editline.c:1000-1091 | Deleting "a","b" from a,a,b,b leaves a,b, which the next run deletes |
| `LineInsertion.IsItemInRegion` | RobIoTs/CGNgine/cgn-agent/files_editline.c:1526-1537 | Whether the line is in the region, for any begin and end |
| `LineInsertion.NeighbourItemMatches` | RobIoTs/CGNgine/cgn-agent/files_editline.c:1719-1758 | Whether the line before the location, or the line after it, is this one |
| `LineInsertion.AppendItem` | RobIoTs/CGNgine/libpromises/item_lib.c:415-435 | A new last node |
| `LineInsertion.InsertAfter` | RobIoTs/CGNgine/libpromises/item_lib.c:514-534 | A new node behind the location, or at the end |
| `LineInsertion.InsertLineAtLocation` | RobIoTs/CGNgine/cgn-agent/files_editline.c:1760-1877 | Before or after any location: nothing if the line is at the start or next to the location already, otherwise one node more where it belongs, or a warning |
| `LineInsertion.InsertPieces` | RobIoTs/CGNgine/cgn-agent/files_editline.c:1667-1714 | In the order "after" the loop over the lines of the chunk puts one after the other behind the location, which moves on |
| `LineInsertion.InsertCompoundLineAtLocation` | RobIoTs/CGNgine/cgn-agent/files_editline.c:1652-1717 | In the order "after": nothing if the chunk stands from the location on |
| `LineInsertion.InsertMultipleLinesToRegion` | RobIoTs/CGNgine/cgn-agent/files_editline.c:872-927 | In the order "after", for any region and kind of block: nothing if the chunk stands before the end of the region, otherwise its lines are put at the end; the region ends behind them |
| `InsertionLaws.InsertionAdds` | RobIoTs/CGNgine/cgn-agent/files_editline.c:872-927 | All lines stay in their order, nothing before the end of the region changes, only selected lines of the chunk are added, and all of them unless the chunk stood in place |
| `InsertionLaws.SelectedLinesArePresentExactly` | RobIoTs/CGNgine/cgn-agent/files_editline.c:812-818 | An insertion brings every selected line into every file exactly if these lines are among those the chunk is compared as; plain chunks always do |
| `InsertionLaws.AnEmptyLineHidesOthers` | RobIoTs/CGNgine/cgn-agent/files_editline.c:812-818 | The chunk a, empty, b is not inserted into a, a, a |
| `InsertionLaws.InsertionConvergesInRegions` | RobIoTs/CGNgine/cgn-agent/files_editline.c:872-927 | In any region with a start a second run inserts nothing, whatever follows the region |
| `InsertionLaws.OneLineGoesToTheEnd` | RobIoTs/CGNgine/cgn-agent/files_editline.c:902-927 | One selected line goes to the end of the region, unless it stands before that end, in front of the region included, or is the line behind it |
| `InsertionLaws.OneLineIsInTheRegionExactly` | RobIoTs/CGNgine/cgn-agent/files_editline.c:902-927 | So after a run it is in the region exactly if it was, or is selected and stands neither in front of the region nor directly behind it |
| `InsertionLaws.ALineInFrontKeepsItOut` | RobIoTs/CGNgine/cgn-agent/files_editline.c:904-910 | In the lines a, s the line a is not put into the region that s begins |
| `InsertionLaws.BlocksConvergeExactly` | RobIoTs/CGNgine/cgn-agent/files_editline.c:1652-1717 | For preserved blocks and for regions without a start, file by file: a second run inserts nothing exactly if nothing is selected or the chunk stands in place by then and is looked for |
| `InsertionLaws.BlockPromisesConvergeExactly` | RobIoTs/CGNgine/cgn-agent/files_editline.c:1652-1717 | Such a promise converges on every file exactly if it selects nothing, or what it is looked for as stands in what it selects and is looked for |
| `InsertionLaws.OneSelectedLineKeepsGrowing` | RobIoTs/CGNgine/cgn-agent/files_editline.c:1670-1679 | Of the lines a, b only a is selected, without a start: every run inserts another a |
| `InsertionLaws.PlainBlocksConverge` | RobIoTs/CGNgine/cgn-agent/files_editline.c:1652-1717 | So it does for plain chunks whose lines are all selected |
| `InsertionLaws.InsertionIsAppending` | RobIoTs/CGNgine/cgn-agent/files_editline.c:872-927 | Without a region the selected lines that are not there are appended, unless the chunk stands in the file |
| `InsertionLaws.InsertionAppends` | RobIoTs/CGNgine/cgn-agent/files_editline.c:872-927 | The old file is a prefix of the new one, every selected line is there unless the compared chunk stood in the file (for plain chunks always), and nothing else is added |
| `InsertionLaws.InsertionConverges` | RobIoTs/CGNgine/cgn-agent/files_editline.c:872-927 | Without a region a second run inserts nothing, the empty file included |
| `InsertionLaws.AppendingKeepsLinesDistinct` | RobIoTs/CGNgine/cgn-agent/files_editline.c:1676-1687 | In a file with lines nothing is appended twice |
| `InsertionLaws.NewLinesKeepTheirOrder` | RobIoTs/CGNgine/cgn-agent/files_editline.c:1670-1714 | A new line comes behind every selected line of the chunk that precedes it there |
| `InsertionLaws.RepeatedLinesEnterAnEmptyFile` | RobIoTs/CGNgine/cgn-agent/files_editline.c:672-676 | An empty file takes every selected line, repeated ones too; a file with a line takes each once |
| `InsertionLaws.TwiceIntoTheEmptyFile` | RobIoTs/CGNgine/cgn-agent/files_editline.c:672-676 | The lines a, a enter the empty file twice, another file once |
| `InsertionBefore.MovePointersOn` | RobIoTs/CGNgine/cgn-agent/files_editline.c:1690-1714 | The flip for a block into an empty file, and both pointers move on, from NULL to the first line |
| `InsertionBefore.InsertPiecesBefore` | RobIoTs/CGNgine/cgn-agent/files_editline.c:1667-1714 | In the order "before" the loop puts the lines one after the other behind prev; prev and location move on |
| `InsertionBefore.InsertCompoundLineBefore` | RobIoTs/CGNgine/cgn-agent/files_editline.c:1652-1717 | In the order "before": nothing if the chunk stands from the location on |
| `InsertionBefore.InsertMultipleLinesBefore` | RobIoTs/CGNgine/cgn-agent/files_editline.c:882-899 | In the order "before", for any region and kind of block: the lines go in front of the begin, unless the chunk stands there or a file with lines has no begin |
| `InsertionBeforeLaws.InsertionBeforeAdds` | RobIoTs/CGNgine/cgn-agent/files_editline.c:882-899 | All lines stay in their order, only selected lines of the chunk are added, and all of them unless the chunk stood there or there is no begin |
| `InsertionBeforeLaws.InsertionBeforeConverges` | RobIoTs/CGNgine/cgn-agent/files_editline.c:882-899 | Without a region a second run inserts nothing, the empty file included |
| `InsertionBeforeLaws.RegionsBeforeConvergeExactly` | RobIoTs/CGNgine/cgn-agent/files_editline.c:1732-1744 | Before a region a second run inserts nothing on every file exactly if one line at most is selected, and none of a preserved block |
| `InsertionBeforeLaws.TwoLinesKeepGrowing` | RobIoTs/CGNgine/cgn-agent/files_editline.c:1732-1744 | The lines a, b are put before the region s, t again at every run |
| `Associations.KnowledgeGraph.UpdateAssociation` | Percolibrium/Percolators/associations.c:144-212 | Refreshes the weight of the alias or appends it while there is room; nothing for an empty name |
| `Associations.KnowledgeGraph.UpdateConcept` | Percolibrium/Percolators/conceptualize-fs.c:194-226 | Files the concept under its digest |
| `Associations.KnowledgeGraph.ReadTuple` | Percolibrium/Percolators/conceptualize-fs.c:158-179 | One line enters four associations from both ends, in this order |
| `Associations.KnowledgeGraph.TieToContext` | Percolibrium/Percolators/conceptualize-fs.c:168-179 | The context is tied to both topics and to all contexts |
| `Associations.KnowledgeGraph.ReadTupleFile` | Percolibrium/Percolators/conceptualize-fs.c:78-190 | Reads up to the first incomplete tuple; both ends of every association stay concepts filed under their digest |
| `Associations.BothEndsKeepInverses` | Percolibrium/Percolators/conceptualize-fs.c:165-166 | Entering an association from both ends keeps every alias mirrored |
| `Associations.ReadingKeepsInverses` | Percolibrium/Percolators/conceptualize-fs.c:78-190 | After any stream, while no file is full, every alias of (a,t,b) with backward name w has an alias w in (b,-t,a) |
| `Associations.FullFilesLoseInverses` | Percolibrium/Percolators/associations.c:187-197 | One double entry keeps every alias mirrored exactly unless both names are new and there is room for just one of them |
| `Associations.ReadingKeepsInversesExactly` | Percolibrium/Percolators/conceptualize-fs.c:78-190 | A stream keeps every alias mirrored exactly if none of its entries loses one; what is lost is never repaired |
| `Associations.AStreamThatLosesInverses` | Percolibrium/Percolators/conceptualize-fs.c:78-190 | 1025 tuples read into an empty store leave an alias without its counterpart |
| `Associations.RereadingAddsNothing` | Percolibrium/Percolators/conceptualize-fs.c:78-190 | Reading the same stream again adds no association and no alias, full files or not |
| `Associations.EveryTupleIsFiled` | Percolibrium/Percolators/conceptualize-fs.c:158-179 | Every tuple in front of the first incomplete one has its association and the inverse stored, both topics tied to the context and back, and the context to all contexts, by these names unless a file is full |
| `Associations.NewAssociationsAreAppended` | Percolibrium/Percolators/associations.c:144-212 | A new association stands last at both ends, with its names, its context and the weight 0.7 |
| `Associations.WeightCountsSightings` | Percolibrium/Percolators/associations.c:176-197 | An alias reported n+1 times weighs 1 - 0.3*0.4^n over the reals |
| `Associations.EveryAliasIsWeighed` | Percolibrium/Percolators/associations.c:176-197 | So does every alias of every association, its name occurring once, and its weight is in [0.7, 1) |
| `Stories.Narrator.RankAssociationsByContext` | Percolibrium/Narrators/stories-fs2.c:394-452 | All associations of non-negative relevance, in no particular order, each with the name, the context and the relevance the best association to its concept has |
| `Stories.Narrator.ConceptAlreadyUsed` | Percolibrium/Narrators/stories-fs2.c:321-334 | Whether the concept is on the path |
| `Stories.Narrator.CopyStory` | Percolibrium/Narrators/stories-fs2.c:601-614 | Copies the path and averages at least one relevance |
| `Stories.Narrator.FollowNextAssociation` | Percolibrium/Narrators/stories-fs2.c:338-374 | Follows an association to a new concept and sweeps what lies beyond it |
| `Stories.Narrator.SearchForContextualizedAssociations` | Percolibrium/Narrators/stories-fs2.c:269-317 | Terminates, records only told stories, leaves earlier ones alone, and sweeps every lasso that goes on from here |
| `Stories.Narrator.TellStories` | Percolibrium/Narrators/stories-fs2.c:198-221 | From an empty list on: everything recorded is told, and in an open graph every lasso is done |
| `Stories.Narrator.ShowMatchingConcepts` | Percolibrium/Narrators/stories-fs2.c:251-260 | The same for the search from the contexts, one step deep |
| `Stories.OneStepDeep` | Percolibrium/Narrators/stories-fs2.c:251-307 | There only concepts that are associated with themselves are recorded |
| `Stories.RecordedStoriesAreShort` | Percolibrium/Narrators/stories-fs2.c:299-307 | A recorded story is a non-empty path, at most min(RECURSE_OPT, 15) long; the last slot stays empty |
| `Stories.PathsInWords` | Percolibrium/Narrators/stories-fs2.c:269-374 | On a path every step is a stored association, no type negates the one before, and the visited concepts are pairwise distinct |
| `Stories.ScoreIsBetween` | Percolibrium/Narrators/stories-fs2.c:601-614 | The rounded mean lies between the smallest and the largest relevance |
| `Stories.RecordedScores` | Percolibrium/Narrators/stories-fs2.c:601-614 | So does the score of every recorded story |
| `Stories.EpisodesAreJudged` | Percolibrium/Narrators/stories-fs2.c:435-444 | Each episode of a recorded story has the name, the context and the relevance of the best association from where the walk stood, of the type of the step, to its concept, in some state of mind |
| `Stories.ScoresFollowTheAssociations` | Percolibrium/Narrators/stories-fs2.c:601-614 | Bounds on the relevance of the associations bound the score of every recorded story |
| `Stories.CertainJudgements` | Percolibrium/Narrators/stories-fs2.c:435-444 | Where the state of mind does not matter, the way alone decides what is told |
| `Stories.ScoreIsNearest` | Percolibrium/Narrators/stories-fs2.c:601-614 | The score is the integer nearest to the mean, the greater one halfway between two |
| `Stories.SumsAddUp` | Percolibrium/Narrators/stories-fs2.c:601-614 | The mean is taken over the sum of all relevances |
| `Stories.StoriesKeepTheirType` | Percolibrium/Narrators/stories-fs2.c:353-357 | When one type is asked for, every step has it |
| `Stories.RecordedExactly` | Percolibrium/Narrators/stories-fs2.c:269-317 | In an open graph, unless the slots run out, the recorded paths are exactly those of the lassos |
| `Stories.RisingTypesTellNothing` | Percolibrium/Narrators/stories-fs2.c:299-307 | When one type is asked for and it forms no cycle, nothing is recorded, though its inverse is stored |
| `Stories.ForestsTellNothing` | Percolibrium/Narrators/stories-fs2.c:299-307 | Where the associations form a forest, an association and its inverse counted once, nothing is recorded for any search |
| `Stories.ChainsTellNothing` | Percolibrium/Narrators/stories-fs2.c:299-307 | A chain of three concepts stored from both ends is such a graph |
| `Stories.CyclesAreTold` | Percolibrium/Narrators/stories-fs2.c:299-307 | In an open graph, unless the slots run out, a cycle within the depth on which no type negates the one before is told from each of its concepts, the subject coming last |
| `Stories.CyclesOfAllTypesAreTold` | Percolibrium/Narrators/stories-fs2.c:202-220 | With no type asked for, so are cycles of associations of any of the four types and their inverses |
| `Stories.ThereAndBackIsTold` | Percolibrium/Narrators/stories-fs2.c:299-307 | Of a, which leads to b, b to c and c back to b, exactly the story from b to c is told, with the names and contexts of its associations and their common relevance as score |

## Left out

- Files, directories, pipes, forks, Redis, neo4j, FastCGI, Avahi, SQL and mount commands: the state they hold is a map, a sequence or a parameter.
- Logging, promise results other than those named, locks, variables, dry runs and option parsing: no invariant lives there.
- External comparison commands for packages (`vercmp.c`, lines 61-108): only the built-in route is modelled.
- NTFS access control lists, `CheckDefaultEqualsAccessACL` and `CheckDefaultClearACL`: copies of the POSIX path or other systems.
- AceSyntax.CheckACESyntax: "user:" and "group:" are excluded, because the C code reads past their end (`IdScanStaysInsideExactly`), where its answer depends on what is there.
- AceSyntax.CheckACLSyntax: so are lists that hold them; the test of `acl_default` in front of the two loops compares options of the promise and is not modelled.
- RelativeLinks.VerifyRelativeLink: the empty source and a relative link path are excluded, because the second scan then leaves its strings (`SecondScanStaysInsideExactly`).
- Truncation in fixed buffers: lines, nodes and fields are taken to fit, except where the code tests a limit itself.
- LineInsertion.InsertMultipleLinesToRegion: the order "after"; the order "before" is in `InsertionBefore`. Warn-only promises change no line and are modelled for one line (`InsertLineAtLocation`), not for a chunk; the lines of another file are not inserted; the selection of a region or a locator by patterns is not modelled, any begin and end with the begin in front are allowed, and the begin is taken to stay where it is between two runs.
- LineInsertion.InsertPieces: the order "after"; the flip of the location is in `InsertionBefore.MovePointersOn`.
- LineInsertion.InsertCompoundLineAtLocation: the order "after", and a location behind the begin of the region, which is from where a locator is looked for.
- LineDeletion.LineFile.DeletePromisedLinesMatching: the selection of a region by its start and end patterns is not modelled; any begin and end are allowed.
- LineDeletion.DeletionConvergesExactly: for lines without wildcards; with them the condition is one on the languages of the regular expressions.
- `MatchPolicy` with a white space policy: lines are compared as they are.
- Associations.KnowledgeGraph.UpdateAssociation: reading back what was written is taken to return it; field lengths and the rounding of printed weights are not modelled.
- Stories.Narrator.SearchForContextualizedAssociations: which of more than seven associations are followed depends on an unreliable sort; completeness is therefore stated for open graphs.
- Stories.Narrator.TellStories: the order in which stories are printed is left out; its comparator does not order either.
- The scan for markers in `ParseInput` (`uTrans.c`, lines 148-227), which can overrun its input: the model starts from the sequence of segments.
- `MapSegment`, the XPath parser, attribute and text edits of XML nodes, column and pattern edits of lines, hard links and `ExpandLinks`: each writes one value or asks the system for one, and keeps no invariant over runs.
- `tokyo_check.c`, `scan_logs.c`, the generators and the Python files.
