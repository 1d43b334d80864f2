# Subcomponent registry and intersection tallies of the yFiles demos, in Dafny

This project models the two pieces of sequential logic that the demo repository
owns itself, as opposed to the graph library it drives.

**Subcomponent registry** (`demos/layout/subcomponents/SubcomponentsDemo.js`).
The subcomponents layout demo keeps a module-level array of subcomponent records
`{nodes, layout}`. Each node's `tag` field holds the index of its record, or
null, and its style class shows the record's palette colour.

- `createSubcomponent` picks the first record that is empty or lists only given
  nodes, or appends a new one. It empties that record, sets its layout and moves
  the given nodes into it. A moved node is spliced out of its former record,
  and its tag and colour are set.
- `removeSubcomponent` takes each tagged node out of the record its tag names
  and clears its tag and class.
- Two select boxes pick the layout algorithm and orientation for a new
  subcomponent.

The model has three layers:

- `SubcomponentsSpec` states each operation on a value `Table`, which holds the
  records, the tag of every node and the style class of every node. Each
  operation is a fold of one loop step over the given nodes.
- `SubcomponentsProperties` proves what these operations do. It also proves that
  they keep the registry invariant `Consistent`: every non-null tag names an
  existing record that lists the node.
- `Subcomponents.Registry` is a class with the same three fields. Its methods
  run the source's loops in place and are proved equal to the spec functions.

Two behaviours of the code are modelled as written and exposed by lemmas:

- The tag test at line 183 uses JavaScript truthiness, so a node whose old tag
  is `0` is never spliced out of record 0. See `CreateKeepsRecordZero` and
  `StaleEntryInRecordZero`.
- `removeSubcomponent` touches only `subcomponents[node.tag]`. Its doc comment
  (line 197) says "from every subcomponent". See `RemoveOnlyTouchesTaggedRecords`
  and `RemoveLeavesOtherRecords`.

Where the comment and the code disagree, the model follows the code.

JavaScript's `indexOf` returns -1 for a missing element, and `splice(-1, 1)`
then deletes the last element. The model keeps both (`IndexOf`, `SpliceOne`,
`RemoveOneAbsent`). From a consistent registry this never happens:
`CreateTakesTagged` and `RemoveFromConsistentTakesTagged` prove that a record
loses exactly the given nodes that were tagged with its index, one copy each.

**Intersection detection** (`demos/analysis/intersection-detection/IntersectionDetectionDemo.ts`).

- `runIntersectionAlgorithm` turns the considered-items select and four
  checkboxes into the options of the library's intersection algorithm
  (`IntersectionOptions`).
- `updateIntersectionInfoPanel` sorts every reported intersection into one of
  four counters (`IntersectionTally`). The counters partition the total and do
  not depend on the order of the two items.

## Model

| member | source | states |
|---|---|---|
| `SubcomponentsSpec.TagOf` | demos/layout/subcomponents/SubcomponentsDemo.js:182 | reading `node.tag`: a recorded node reads exactly its recorded tag (null or an index), and a node the table does not record reads as null |
| `SubcomponentsSpec.ColorOf` | demos/layout/subcomponents/SubcomponentsDemo.js:87-102 | a subcomponent's class is always one of the 14 palette entries, and for an index below 14 it is exactly the entry at that index |
| `SubcomponentsSpec.IndexOf` | demos/layout/subcomponents/SubcomponentsDemo.js:186 | `indexOf`: -1 exactly when the node is absent, otherwise a position holding it with no earlier occurrence |
| `SubcomponentsSpec.SpliceOne` | demos/layout/subcomponents/SubcomponentsDemo.js:187 | `splice(start, 1)` deletes one element unless the list is empty or the start is past the end |
| `SubcomponentsSpec.RemoveOne` | demos/layout/subcomponents/SubcomponentsDemo.js:185-187 | `splice(indexOf(node), 1)` drops exactly one element of a non-empty list, even when the node is absent |
| `SubcomponentsSpec.Reusable` | demos/layout/subcomponents/SubcomponentsDemo.js:161-164 | the `findIndex` test holds exactly when every node of the record is among the given nodes; the emptiness test is subsumed |
| `SubcomponentsSpec.FindIndex` | demos/layout/subcomponents/SubcomponentsDemo.js:161-164 | `findIndex`: a reusable record (empty, or all its nodes given) with no reusable record before it, or -1 when none is reusable |
| `SubcomponentsSpec.ChosenSlot` | demos/layout/subcomponents/SubcomponentsDemo.js:161-172 | the filled index is the lowest reusable record, or the old length when no record is reusable |
| `SubcomponentsSpec.Reset` | demos/layout/subcomponents/SubcomponentsDemo.js:165-178 | reusing keeps the record count; appending adds exactly one record; the chosen index then exists |
| `SubcomponentsSpec.SplicesOld` | demos/layout/subcomponents/SubcomponentsDemo.js:182-184 | the loop splices exactly when the old tag is non-null, names an existing record, and is neither 0 (falsy) nor the chosen index |
| `SubcomponentsSpec.MoveStep` | demos/layout/subcomponents/SubcomponentsDemo.js:181-192 | one iteration of the move loop appends the node to the chosen record; when the old tag is truthy, in range and not the chosen index it splices the node out of that record; no other record changes; the node gets the chosen index as tag and its palette class; no other tag or class changes |
| `SubcomponentsSpec.MoveAll` | demos/layout/subcomponents/SubcomponentsDemo.js:181-192 | the whole move loop keeps the number of records |
| `SubcomponentsSpec.Create` | demos/layout/subcomponents/SubcomponentsDemo.js:157-194 | `createSubcomponent` with no nodes changes nothing; otherwise the chosen index exists afterwards and the registry grows by one record exactly when no record was reusable |
| `SubcomponentsSpec.RemoveStep` | demos/layout/subcomponents/SubcomponentsDemo.js:201-208 | one iteration of the remove loop throws exactly when the tag names no record; an untagged node or a throw leaves everything unchanged; otherwise the tagged record loses the node via `splice(indexOf)`, no other record changes, the tag becomes null and the class empty; no other tag or class changes |
| `SubcomponentsSpec.RemoveAll` | demos/layout/subcomponents/SubcomponentsDemo.js:200-209 | `removeSubcomponent` never removes a record, whether it completes or throws |
| `SubcomponentsProperties.RemoveOnePresent` | demos/layout/subcomponents/SubcomponentsDemo.js:185-187 | `splice(indexOf(x), 1)` on a list holding the node drops its first occurrence, exactly one copy of it |
| `SubcomponentsProperties.RemoveOneAbsent` | demos/layout/subcomponents/SubcomponentsDemo.js:185-187 | on a list without the node, `splice(indexOf(x), 1)` drops the last element (nothing if the list is empty) |
| `SubcomponentsProperties.RemoveOneCount` | demos/layout/subcomponents/SubcomponentsDemo.js:185-187 | removing a present node lowers its count in the list by exactly one and leaves every other count as it was |
| `SubcomponentsProperties.RemoveOneKeepsOthers` | demos/layout/subcomponents/SubcomponentsDemo.js:204 | removing a present node keeps every other node in the list |
| `SubcomponentsProperties.MoveAllTags` | demos/layout/subcomponents/SubcomponentsDemo.js:181-192 | after the loop every visited node has the chosen index as tag and its palette class; every other node keeps its tag and class |
| `SubcomponentsProperties.MoveAllFillsSlot` | demos/layout/subcomponents/SubcomponentsDemo.js:184-189 | the filled record is never spliced; it ends as its old nodes followed by the visited nodes in order |
| `SubcomponentsProperties.MoveAllFrame` | demos/layout/subcomponents/SubcomponentsDemo.js:182-188 | any other record stays unchanged if it is record 0 or no visited node was tagged with its index |
| `SubcomponentsProperties.MoveAllTakesTagged` | demos/layout/subcomponents/SubcomponentsDemo.js:181-188 | over the loop, a record other than record 0 and the filled one loses exactly one copy of each visited node tagged with its index, when it listed them |
| `SubcomponentsProperties.CreateGrowth` | demos/layout/subcomponents/SubcomponentsDemo.js:157-172 | empty input changes nothing; otherwise the count stays when a record is reused and grows by exactly one when none is reusable |
| `SubcomponentsProperties.CreatePlacesNodes` | demos/layout/subcomponents/SubcomponentsDemo.js:175-191 | the chosen record becomes exactly the given nodes in iteration order with the given layout; each given node gets the chosen index as tag and `colors[index % 14]`; all other tags and classes are unchanged |
| `SubcomponentsProperties.CreateFrame` | demos/layout/subcomponents/SubcomponentsDemo.js:182-188 | a record that is not chosen, and that no given node was tagged with, is unchanged |
| `SubcomponentsProperties.CreateTakesTagged` | demos/layout/subcomponents/SubcomponentsDemo.js:157-194 | from a consistent registry, a record other than record 0 and the chosen one loses exactly the given nodes tagged with its index, one copy each, and nothing else |
| `SubcomponentsProperties.PaletteRepeats` | demos/layout/subcomponents/SubcomponentsDemo.js:87-102 | the palette is reused cyclically after 14 subcomponents, and subcomponents 9 and 10 get the same class because "demo-palette-31" is listed twice |
| `SubcomponentsProperties.CreateKeepsRecordZero` | demos/layout/subcomponents/SubcomponentsDemo.js:183 | record 0 is unchanged unless it is the chosen one, even when given nodes were tagged 0 (falsy tag) |
| `SubcomponentsProperties.StaleEntryInRecordZero` | demos/layout/subcomponents/SubcomponentsDemo.js:182-190 | a node moved out of record 0 stays listed there while its tag names the new record |
| `SubcomponentsProperties.MoveOutOfRecordOne` | demos/layout/subcomponents/SubcomponentsDemo.js:182-190 | with an empty record 0 reused for node 1 tagged 1, the node is spliced out of record 1 and its tag names record 0 |
| `SubcomponentsProperties.RemoveAllTags` | demos/layout/subcomponents/SubcomponentsDemo.js:200-209 | a completed removal leaves every given node with tag null; nodes that had a tag get the empty class; untagged given nodes and all other nodes keep their class |
| `SubcomponentsProperties.RemoveThrowsIff` | demos/layout/subcomponents/SubcomponentsDemo.js:203 | removal throws exactly when some given node's tag names no record |
| `SubcomponentsProperties.RemoveAllStopsAtThrow` | demos/layout/subcomponents/SubcomponentsDemo.js:201-203 | once a node throws, later nodes are not processed |
| `SubcomponentsProperties.RemoveNeverThrowsInRange` | demos/layout/subcomponents/SubcomponentsDemo.js:202-203 | if every tag names an existing record, removal never throws |
| `SubcomponentsProperties.RemoveOnlyTouchesTaggedRecords` | demos/layout/subcomponents/SubcomponentsDemo.js:196-204 | a record that no given node was tagged with keeps all its nodes, including given nodes it still lists |
| `SubcomponentsProperties.RemoveStepDropsNode` | demos/layout/subcomponents/SubcomponentsDemo.js:202-206 | the record a node's tag names, index 0 included, loses exactly one copy of the node and keeps its layout |
| `SubcomponentsProperties.RemoveAllTakesTagged` | demos/layout/subcomponents/SubcomponentsDemo.js:200-209 | in a run that completes, each record, record 0 included, loses exactly one copy of each given node tagged with its index, when it listed them |
| `SubcomponentsProperties.RemoveFromConsistentTakesTagged` | demos/layout/subcomponents/SubcomponentsDemo.js:200-209 | from a consistent registry, each record loses exactly the given nodes tagged with its index, one copy each, and nothing else |
| `SubcomponentsProperties.RemoveLeavesOtherRecords` | demos/layout/subcomponents/SubcomponentsDemo.js:196-204 | a node listed in records 0 and 1 but tagged 1 is removed from record 1 only |
| `SubcomponentsProperties.MoveStepConsistent` | demos/layout/subcomponents/SubcomponentsDemo.js:181-192 | one move step keeps every tag pointing at a record that lists its node, except nodes still to be visited |
| `SubcomponentsProperties.MoveAllConsistent` | demos/layout/subcomponents/SubcomponentsDemo.js:181-192 | the move loop keeps the same relaxed invariant |
| `SubcomponentsProperties.CreatePreservesConsistent` | demos/layout/subcomponents/SubcomponentsDemo.js:157-193 | `createSubcomponent` keeps every non-null tag pointing at an existing record that lists the node |
| `SubcomponentsProperties.RemovePreservesConsistent` | demos/layout/subcomponents/SubcomponentsDemo.js:200-209 | on a consistent registry `removeSubcomponent` never throws and keeps it consistent |
| `Subcomponents.Registry.constructor` | demos/layout/subcomponents/SubcomponentsDemo.js:78-81 | the registry starts with no records; node tags are whatever the graph builder set |
| `Subcomponents.Registry.CreateSubcomponent` | demos/layout/subcomponents/SubcomponentsDemo.js:157-194 | the in-place update equals `Create` on the old state; it fills the chosen record with the given nodes, tags them, and keeps the invariant |
| `Subcomponents.Registry.MoveNodes` | demos/layout/subcomponents/SubcomponentsDemo.js:181-192 | the in-place loop over the given nodes equals `MoveAll` on the old state |
| `Subcomponents.Registry.RemoveSubcomponent` | demos/layout/subcomponents/SubcomponentsDemo.js:200-209 | the in-place update equals `RemoveAll`; it throws exactly on an out-of-range tag, never shrinks the registry, and keeps the invariant |
| `LayoutSelection.LayoutAlgorithmFor` | demos/layout/subcomponents/SubcomponentsDemo.js:289-301 | the layout select picks the algorithm it names; every other value gives the tree layout, like "tree" |
| `LayoutSelection.LayoutOrientationFor` | demos/layout/subcomponents/SubcomponentsDemo.js:332-345 | the orientation select picks the orientation it names; every other value gives top-to-bottom, like "top-to-bottom" |
| `LayoutSelection.AlgorithmNamesSelect` | demos/layout/subcomponents/SubcomponentsDemo.js:290-300 | each listed option value maps back to the algorithm it names |
| `LayoutSelection.OrientationNamesSelect` | demos/layout/subcomponents/SubcomponentsDemo.js:334-344 | each listed option value maps back to the orientation it names |
| `IntersectionOptions.ConsideredItemTypes` | demos/analysis/intersection-detection/IntersectionDetectionDemo.ts:135-155 | "all" and unknown values give all kinds; "nodes"/"edges"/"labels" give that single kind; "nodes-and-edges" gives {Node, Edge}; "nodes-and-labels" gives {Node, Label}; stated per kind as if-and-only-if |
| `IntersectionOptions.ConfigureIntersections` | demos/analysis/intersection-detection/IntersectionDetectionDemo.ts:130-174 | independent items start empty and hold Label iff label-owner is checked, Edge iff source-target, Node iff group-content; item geometry equals its checkbox |
| `IntersectionTally.Classify` | demos/analysis/intersection-detection/IntersectionDetectionDemo.ts:197-208 | node–node iff both items are nodes; edge–edge iff both are edges; node–edge iff the items are one node and one edge in either order; label otherwise |
| `IntersectionTally.Count` | demos/analysis/intersection-detection/IntersectionDetectionDemo.ts:194-209 | a counter never exceeds the number of intersections |
| `IntersectionTally.ClassifySymmetric` | demos/analysis/intersection-detection/IntersectionDetectionDemo.ts:197-205 | swapping `item1` and `item2` puts a pair in the same counter |
| `IntersectionTally.CountsPartition` | demos/analysis/intersection-detection/IntersectionDetectionDemo.ts:189-215 | the four counters add up to the number of intersections |
| `IntersectionTally.CountSwapped` | demos/analysis/intersection-detection/IntersectionDetectionDemo.ts:197-209 | swapping the items of every intersection leaves each counter unchanged |
| `IntersectionTally.UpdateIntersectionInfoPanel` | demos/analysis/intersection-detection/IntersectionDetectionDemo.ts:189-216 | the loop's counters equal the per-category counts, the total is the list length, and the counters add up to it |

## Left out

- `runLayout` and `morphLayout` (SubcomponentsDemo.js:133-150) are not modelled. They pass each record's layout and nodes to the library's hierarchic layout.
- Layout algorithms are not modelled. A layout is an opaque type parameter, and the select functions return only the algorithm's kind. The configuration the constructors apply (tree reduction stage, organic edge length 70, the orientation set at line 394) is library state.
- `initializeSubComponents` (SubcomponentsDemo.js:254-273) is not modelled. It is start-up code outside the two operations. Starting from an empty registry, it calls `createSubcomponent` once each on the nodes whose initial tag is 0, 1 and 2, with a hierarchic, a tree and an organic layout. The constructor starts from arbitrary initial tags instead.
- Node collections are given as sequences in iteration order. Duplicates are allowed and handled as the loops handle them. The library's live enumerables are not modelled.
- Node tags are modelled as null or a non-negative integer. JavaScript allows any value, but the graph builder and both operations only store those.
- `setStyleClass` is modelled as a write to a map from node to class. Rendering is left out.
- `removeSubcomponent`'s TypeError is modelled as a returned flag. The loop stops and keeps its earlier effects.
- The library's `IntersectionItemTypes` and `GraphItemTypes` flags are modelled as sets of three kinds (node, edge, label). Any further kinds in the library's `ALL` are not modelled.
- `Intersections.run`, `updateIntersectionVisual` and the DOM reads and writes are not modelled. The panel gets numbers; the decimal text written to `innerText` is left out.
- Enabling or disabling buttons and the orientation select (SubcomponentsDemo.js:351-384) is UI wiring and is left out.
- demos/complete/logicgates/DemoStyles.js is not part of this model: it is SVG creation and floating-point Bézier evaluation.
- demos/view/ganttchart/GridVisual.ts is not part of this model: it is canvas drawing that depends on an external date library.
- demos/complete/decisiontree/DecisionTreeDemo.ts is not part of this model: it is UI wiring and asynchronous layout runs.
- demos/complete/mindmap/MindmapEditorInputMode.ts is not part of this model: it delegates to library and helper code that is not shown.
