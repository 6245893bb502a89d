# PythonOCC-DEMO core, modelled in Dafny

This project models the sequential logic of the PythonOCC-DEMO repository, leaving out its GUI and CAD kernel, and proves properties of that model. Five source files are modelled:

- **Main.java**, the tree-camera program (module `TreeCamera`). The input string is split on spaces and a binary tree is built from the tokens in level order, `"N"` standing for a missing child. `buildTree` is a method over an arena of nodes with a FIFO queue, and it is proved equal to a level-order specification. The three-state `dfs` is a pure recursive function. Its answer is proved to be a lower bound, for every tree, on the cameras of any placement that watches every node, and to be attained by such a placement (so optimal) for trees of fewer than 3001 nodes, 3001 being the value the code uses for "impossible".
- **visualize_xlsx.py**, the spreadsheet viewer (modules `XlsxRecords`, `XlsxParse`, `XlsxSelection`, `XlsxDraw`, `XlsxImport`, `XlsxWindow`). Rows are read into the record stores as the code reads them (a row whose conversion raises takes its remaining columns from the previous row): unique nodes in first-seen order, consecutive link indices, node → links lists, section groups and the root aggregate. Shapes are registered in display batches. The highlight colour rules, the tree-click state machine, the 3D-pick lookup, the breadth-first search for a tree item, the bounded link listing of the node info, and the grouping and ids of imported CAD shapes are modelled too. `MainWindow` is a class whose methods update its fields.
- **visualize_xml.py**, the XML viewer (modules `XmlParse`, `XmlDraw`, `XmlImport`, `XmlWindow`). The Net ⊇ SubNet ⊇ Segment ⊇ Network index aggregation is modelled as nested loops, each proved against a specification of its level. The viewer's own highlight and click rules are modelled, as are the batches of 50 in which shapes are displayed and imported shapes are grouped in the tree.
- **configmanager.cpp**, the file-type registry (module `Config`). `initialize` fills the four maps from the `FileTypes` groups, with the extension lists as the code splits them. Validation, getters and setter are modelled on them.
- **filevisualizer.cpp**, the processing window (module `Processing`). The job state machine covers start, progress ticks, output parsing (`Progress:\s*(\d+)%`), error, finish and cancel, together with file-type detection.

Six modules are shared. `Basics` holds Option, Min, Distinct and the cancellable loop count `Passes`. `Decimal` holds decimal texts and the 32-bit range. `Dicts` models Python's insertion-ordered dict as a value. `Batches` holds the batch arithmetic. `QtText` models `trimmed()`, `toLower()`, `split(",")` and the `QMap` key order. `Shapes` holds shape handles, ids, colours and tree items.

Everything the programs take from outside becomes a parameter of the operation that uses it:

- file contents: spreadsheet rows, the XML document, the CAD reader's shapes, INI groups;
- file-system checks: readable, executable;
- answers of the user: cancel after a given pass, confirm;
- `qrand()`;
- whether a process started;
- the output a process printed.

Tree items are identified by the filling of the tree they belong to and their path in it. A `tree.clear()` starts a new filling.

## Model

| member | source | states |
|---|---|---|
| TreeCamera.JavaSplit | Main.java:19 | `split(" ")`: no piece holds a space; the pieces are Pieces(s) with its trailing empty pieces dropped, the last one kept non-empty; the empty input is the one piece "" |
| TreeCamera.JoinPieces | Main.java:19 | splitting at every space loses nothing: re-joining the pieces with single spaces gives the input back |
| TreeCamera.SplitOfSpaces | Main.java:19-21 | every non-empty input made only of spaces splits into no tokens, so by TreeCamera.MinCameraCover's first clause the answer is 0 |
| TreeCamera.PiecesOfSpaces | Main.java:19 | n spaces cut into n + 1 empty pieces |
| TreeCamera.EmptyInputRaises | Main.java:19-23 | the empty input is the single token "", which is not "N" and which parseInt rejects, so it raises rather than answering 0 |
| TreeCamera.ParseInt | Main.java:32 | `Integer.parseInt`: what it accepts starts with a sign or a digit and lies in the 32-bit range |
| TreeCamera.ParseIntText | Main.java:32 | parseInt reads back every 32-bit value from its decimal text, sign included |
| TreeCamera.Count | Main.java:36-48 | the number of nodes allocated from the first t tokens is at most t |
| TreeCamera.ParsedBefore | Main.java:38-46 | every non-"N" token the loop has read parsed |
| TreeCamera.ReadToken | Main.java:39-40 | reading a non-"N" token allocates exactly the next node, holding the token's value |
| TreeCamera.ReadChild | Main.java:38-41 | one child token: it fails exactly when the token is not "N" and does not parse; otherwise the child is null for "N" and the next fresh node otherwise, earlier nodes unchanged |
| TreeCamera.ReadPair | Main.java:38-47 | a dequeued node's two tokens give its left and right child; a failure names the first token in reading order that does not parse |
| TreeCamera.ChildrenOk | Main.java:38-46 | the children a node's tokens give it are null or nodes allocated after it |
| TreeCamera.LevelOrderWellFormed | Main.java:36-49 | in the level-order reading every child field is null or names a later node, so the fields describe a finite tree |
| TreeCamera.ReachedNext | Main.java:36-37 | once node `done` is dequeued the loop has reached the two tokens after its own |
| TreeCamera.LinksNext | Main.java:37-47 | assigning a dequeued node its two children keeps every earlier node's children as their tokens give them |
| TreeCamera.VisitNext | Main.java:36-48 | the queue loop's invariant (tokens read, values parsed, links set, queue = the allocated, undequeued nodes in order) survives one turn |
| TreeCamera.Visit | Main.java:36-48 | one turn of the queue loop keeps the invariant and consumes two tokens, or names the first token parseInt raises on |
| TreeCamera.LoopExit | Main.java:36-49 | when the queue empties or the tokens run out, the arena is the level-order reading of the tokens |
| TreeCamera.BuildTree | Main.java:28-50 | buildTree returns null exactly for no tokens or a leading "N"; otherwise the arena it builds is the level-order reading, or the first token that does not parse is reported |
| TreeCamera.Dfs | Main.java:52-71 | a null subtree gives (0, 0, 3001); all three states are non-negative; for a node state1 and state2 are at least 1 and state2 is at most the subtree's size |
| TreeCamera.CombineWatched | Main.java:61-64 | the third option (cameras on both children) never beats the first two, so state1 is the better of one camera child plus the other child's cheaper covered state |
| TreeCamera.CoverCost | Main.java:25 | min(state1, state2) of the root is 0 for the null tree and between 1 and the node count otherwise |
| TreeCamera.DfsIsLower | Main.java:52-71 | every camera placement in state k costs at least dfs's value for state k |
| TreeCamera.NoCameraLower | Main.java:59 | a placement with no camera at the root and everything below watched costs at least state0 |
| TreeCamera.WatchedFromBelowLower | Main.java:61-64 | a placement whose root is watched by a child's camera costs at least state1 |
| TreeCamera.CameraLower | Main.java:66-68 | a placement with a camera at the root costs at least state2 |
| TreeCamera.FullLower | Main.java:25 | a subtree watched entirely from inside costs at least min(state1, state2) |
| TreeCamera.HalfLower | Main.java:66-67 | a subtree whose parent holds a camera costs at least min(state0, state1, state2) |
| TreeCamera.DfsIsAchieved | Main.java:52-71 | every dfs value below 3001 is the cost of some placement in that state, so dfs is the minimum and not just a bound |
| TreeCamera.AchieveNoCamera | Main.java:59 | a placement in state 0 costing exactly state0 exists when state0 is below 3001 |
| TreeCamera.AchieveWatchedFromBelow | Main.java:61-64 | a placement in state 1 costing exactly state1 exists when state1 is below 3001 |
| TreeCamera.AchieveCamera | Main.java:66-68 | a placement in state 2 costing exactly state2 exists when state2 is below 3001 |
| TreeCamera.CameraWatched | Main.java:66-68 | a placement in state 2 has a camera at its root and is watched whatever its parent holds |
| TreeCamera.FullWitness | Main.java:25 | a placement watched from inside costing exactly min(state1, state2) exists when that is below 3001 |
| TreeCamera.HalfWitness | Main.java:66-67 | a placement under a parent camera costing exactly min(state0, state1, state2) exists when that is below 3001 |
| TreeCamera.CoverCostIsLower | Main.java:24-25 | no placement that watches every node uses fewer cameras than minCameraCover's answer |
| TreeCamera.CoverCostIsAchieved | Main.java:24-25 | for fewer than 3001 nodes some placement watching every node uses exactly that many cameras, so the answer is the optimum |
| TreeCamera.MinCameraCover | Main.java:18-26 | 0 exactly for no tokens or a leading "N"; otherwise CoverCost of the level-order tree, between 1 and its node count (a lower bound for every tree, and the optimum below 3001 nodes by TreeCamera.CoverCostIsLower and TreeCamera.CoverCostIsAchieved); or the NumberFormatException at the first unparsable token read |
| XlsxRecords.Default | visualize_xlsx.py:347-361 | each column's default (`Link_{index}`, `Origin_{index}`, `Extremite_{index}`, 0.0, '' or 'Default') has its column's kind |
| XlsxRecords.ReadColumn | visualize_xlsx.py:347-361 | `row.get(column, default)` through the column's conversion fails exactly when the row has the cell, the column goes through `float()` and the cell does not convert |
| XlsxRecords.ReadRow | visualize_xlsx.py:362-379 | the intended reading gives every column a value of its kind |
| XlsxRecords.ReadRowColumns | visualize_xlsx.py:346-379 | in the intended reading each column takes the row's own converted cell, or its default when the conversion raises |
| XlsxRecords.FirstFailure | visualize_xlsx.py:346-362 | the try block stops at the first column whose conversion raises: every column before it converts |
| XlsxRecords.ReadRowAsWritten | visualize_xlsx.py:346-379 | the reading as written (columns up to the first failure from the row, the rest from `locals()`, that is the previous row, or from the defaults on the first row) still gives every column a value of its kind |
| XlsxRecords.AsWrittenCarriesOver | visualize_xlsx.py:362-379 | a second row whose Xorigine does not convert takes its Section from the first row although its own Section cell converts, where the intended reading gives its own |
| XlsxRecords.AsWrittenAgreesWithoutFailure | visualize_xlsx.py:346-379 | the two readings agree on every row in which every conversion succeeds |
| XlsxRecords.FirstFailureAllConvert | visualize_xlsx.py:346-361 | with no conversion raising the try block runs to its end |
| XlsxRecords.RowLinkReadsRow | visualize_xlsx.py:440-468 | in the corrected reading a row's `link_data` entry is its own columns' values, read one by one, put into the record |
| XlsxRecords.IntendedLinksAt | visualize_xlsx.py:334-468 | in the corrected reading link k is row k's own reading at index k |
| XlsxRecords.ReadingAt | visualize_xlsx.py:346-379 | the values the loop holds after row k, read as written over the previous row's values, have every column's kind |
| XlsxRecords.Carried | visualize_xlsx.py:346-379 | what `locals()` holds before row k: nothing before the first row, row k-1's reading after it, always well kinded |
| XlsxRecords.LinksOfAt | visualize_xlsx.py:334-468 | link k, as written, is row k read over row k-1's reading (the first row over nothing), at index k |
| XlsxRecords.LinksAgreeWithoutFailure | visualize_xlsx.py:346-468 | when every conversion of every row succeeds, the records as written equal the corrected ones |
| XlsxRecords.LinksCarryOver | visualize_xlsx.py:346-468 | in a two-row sheet whose second row's Xorigine does not convert the second link's section is the first row's, where the corrected reading gives its own |
| XlsxRecords.AddNode | visualize_xlsx.py:382-386 | a ref is stored only when it is new, appended last with the given point; a stored ref and its point never change |
| XlsxRecords.AddToSection | visualize_xlsx.py:389-393 | the section list is created on first sight and gets the index appended; other sections are unchanged |
| XlsxRecords.IngestLinks | visualize_xlsx.py:440-471 | link indices are 0..n-1 in row order: `link_data` has exactly those keys, entry k is row k's link and segment k its two points |
| XlsxRecords.IngestStep | visualize_xlsx.py:381-480 | each row adds exactly one link under index `len(segments) - 1` before it |
| XlsxRecords.IngestValid | visualize_xlsx.py:382-393 | `unique_nodes` and the section dict keep distinct keys in insertion order, matching their maps |
| XlsxRecords.IngestNodeKeys | visualize_xlsx.py:382-386 | the unique nodes are exactly the refs some processed link names as origin or end |
| XlsxRecords.IngestNodesStable | visualize_xlsx.py:382-386 | later rows only append new refs: a stored ref keeps its place and its coordinates |
| XlsxRecords.AddNodeGrows | visualize_xlsx.py:382-386 | adding a ref never reorders or changes the stored ones |
| XlsxRecords.FirstSightPoint | visualize_xlsx.py:382-386 | a ref first seen as a link's origin (or else as its end) is stored with that point; a known ref keeps its point |
| XlsxRecords.RefSetMentions | visualize_xlsx.py:382-386 | the ref set is exactly the refs the first n links mention |
| XlsxRecords.NodeCount | visualize_xlsx.py:382-386 | the node count equals the number of distinct refs among the processed rows |
| XlsxRecords.PushIndex | visualize_xlsx.py:474-480 | appending the newest index keeps the list ordered and counts that index once more |
| XlsxRecords.NodeLinksStep | visualize_xlsx.py:474-480 | link n-1 appends its index to a ref's list once for the origin and once for the end that is that ref |
| XlsxRecords.IngestNodeLinks | visualize_xlsx.py:474-480 | `node_to_links[ref]` is ordered, holds only processed indices, and holds each link once per end that is ref (twice for a self-loop) |
| XlsxRecords.EndsStep | visualize_xlsx.py:474-480 | one link's appends keep a ref's list right for one more link |
| XlsxRecords.IngestSectionKeys | visualize_xlsx.py:389-393 | the sections are exactly those the processed rows name |
| XlsxRecords.IngestSectionLists | visualize_xlsx.py:449 | each link index is in exactly one section list, its own section's, and each list is increasing |
| XlsxRecords.NodeIdInjective | visualize_xlsx.py:495 | distinct node numbers give distinct ids `node_i` |
| XlsxRecords.NodeIdIsNodeId | visualize_xlsx.py:495 | every `node_i` starts with `node_`, so the colour rules treat it as a node |
| XlsxRecords.NodeIds | visualize_xlsx.py:488-497 | the list is node_0..node_{n-1} |
| XlsxRecords.NodeIdFresh | visualize_xlsx.py:495-497 | a new node id is not among the earlier ones |
| XlsxRecords.IntIds | visualize_xlsx.py:446 | a list of link indices as integer shape ids, in order |
| XlsxRecords.SectionItem | visualize_xlsx.py:389-397 | a section group carries its link indices as data and one link item per index, in order |
| XlsxRecords.LinkItems | visualize_xlsx.py:397-446 | one link item per index, in order |
| XlsxRecords.NodesRoot | visualize_xlsx.py:327-329 | "Network Nodes" carries the node ids as data and one item per node, in order |
| XlsxRecords.NodeItems | visualize_xlsx.py:490-515 | the node items in insertion order |
| XlsxRecords.MainRootChildren | visualize_xlsx.py:322-329 | the root's first child is "Network Nodes" and child i + 1 is the i-th section group created |
| XlsxRecords.SectionItems | visualize_xlsx.py:521-522 | one section group per section list, in order |
| XlsxRecords.LinkInfosSpec | visualize_xlsx.py:471 | the link records in `shape_to_info` are keyed by exactly the indices 0..n-1, record k holding link k |
| XlsxRecords.NodeIdMapSpec | visualize_xlsx.py:499-500 | with distinct refs the j-th ref maps to node_j and only the refs seen are mapped |
| XlsxRecords.NodeIdMapValues | visualize_xlsx.py:499-500 | every id the node loop stores is some node_j |
| XlsxRecords.WithNodeInfosSpec | visualize_xlsx.py:502-507 | node_j holds the j-th ref's record (ref, coordinates, connected links or []); the loop adds node ids only and changes no other entry |
| XlsxRecords.WithNodeInfosKeys | visualize_xlsx.py:502-507 | the node loop adds exactly node_0..node_{i-1} to the keys |
| XlsxRecords.WithNodeInfoAt | visualize_xlsx.py:502-507 | node_j keeps the j-th ref's record once later refs are stored |
| XlsxRecords.WithNodeInfosKeep | visualize_xlsx.py:502-507 | an entry under an id that is not a node id survives the node loop |
| XlsxRecords.RootListsEveryId | visualize_xlsx.py:524-529 | the root's list holds every link index and every node id |
| Basics.PassesExit | visualize_xlsx.py:334-343 | a loop that polls the dialog before each pass and breaks at the first poll reporting cancelled leaves after Passes(limit, cancelAt) passes |
| XlsxParse.ReadLinks | visualize_xlsx.py:334-484 | the row loop, carrying the previous row's values into a row whose conversion raises, leaves exactly the stores of the as-written links of the rows before the cancel (all rows when not cancelled) |
| XlsxParse.RowsReadZero | visualize_xlsx.py:299-346 | before the first row nothing is carried over and every store is empty |
| XlsxParse.IngestZero | visualize_xlsx.py:299-313 | before any row is read every store is empty |
| XlsxParse.ReadOne | visualize_xlsx.py:346-480 | one pass reads row `index` over the previous row's values, returns that reading for the next row and adds its as-written link to every store |
| XlsxParse.ParsedRecordsValid | visualize_xlsx.py:486-500 | after a parse the unique nodes keep distinct keys and the j-th ref has the id node_j |
| XlsxParse.Parse | visualize_xlsx.py:295-529 | the parse leaves the rows' records as the code reads them (node ids and node records added by the node loop) and the single root item built from them, and the records are valid |
| XlsxParse.RegisterNodes | visualize_xlsx.py:490-507 | the node loop maps the i-th ref to node_i and stores its record under that id on top of the link records |
| XlsxSelection.Recoloured | visualize_xlsx.py:1035-1074 | `highlight_shapes` keeps the registered ids, their order and their shapes; it changes colours only |
| XlsxSelection.RecolouredColour | visualize_xlsx.py:1044-1067 | a registered id listed in the call takes green (node) or yellow when highlighting, and red (node), blue (segment) or light gray (imported) when releasing; every other shape keeps its colour |
| XlsxSelection.RecolouredStep | visualize_xlsx.py:1044-1074 | recolouring the ids one after the other, in list order, is the whole call; an unregistered id is skipped |
| XlsxSelection.RecolouredNone | visualize_xlsx.py:1044 | highlighting no ids changes nothing |
| XlsxSelection.HighlightRoundTrip | visualize_xlsx.py:1044-1067 | highlighting and then releasing the same ids restores every shape that showed its default colour |
| XlsxSelection.SwitchHighlight | visualize_xlsx.py:1136-1142 | releasing the old highlight and highlighting the new set leaves exactly the new set showing highlight colours |
| XlsxSelection.ClearHighlight | visualize_xlsx.py:1102-1105 | releasing the highlighted set leaves every shape in its default colour |
| XlsxSelection.RepeatHighlight | visualize_xlsx.py:653-659 | highlighting the highlighted set again keeps the colours in agreement with it |
| XlsxSelection.RepickUnchanged | visualize_xlsx.py:653-660 | re-picking the single highlighted id skips the release and changes no colour |
| XlsxSelection.Present | visualize_xlsx.py:1115 | the filtered list holds exactly the item's ids that are registered in `ais_shapes`, and is no longer than the item's list |
| XlsxSelection.PresentOfAllPresent | visualize_xlsx.py:1115 | filtering ids that are all registered keeps the list as it is, in order |
| XlsxSelection.FirstSame | visualize_xlsx.py:626-635 | the linear scan finds the first key in insertion order whose non-null shape IsSame as the pick, and no earlier key matches |
| XlsxSelection.PickedId | visualize_xlsx.py:625-648 | the pick resolves to no id exactly when no registered shape IsSame as it; otherwise to the first matching key in insertion order |
| XlsxSelection.FirstSameFrom | visualize_xlsx.py:626-635 | the first matching key is what any scan that reaches past it finds |
| XlsxSelection.PathHas | visualize_xlsx.py:701-719 | a matching item anywhere in the tree is in the subtree of some top-level item, so the search has something to find |
| XlsxSelection.QueueSizeAppend | visualize_xlsx.py:695-719 | the items reachable from a concatenated queue add up |
| XlsxSelection.ChildEntries | visualize_xlsx.py:718-719 | the search appends one entry per child, in child order |
| XlsxSelection.ChildEntriesSize | visualize_xlsx.py:718-719 | the entries of the first n children reach exactly their subtrees' items |
| XlsxSelection.QueueStep | visualize_xlsx.py:701-719 | taking an item off the front and queueing its children removes exactly one item from what is reachable, so the search terminates |
| XlsxSelection.QueueSizeOne | visualize_xlsx.py:695-698 | a queued item reaches itself and its subtree |
| XlsxSelection.Listed | visualize_xlsx.py:759-762 | the listed links are exactly the given indices that have a record, each with its record's name |
| XlsxSelection.NodeInfoBounded | visualize_xlsx.py:737-765 | unknown id gives "not found"; otherwise at most ten links are listed, each among the node's first ten; the count is that of all connected links; a "remaining n-10" line appears exactly when there are more than ten |
| XlsxDraw.NodeSpheres | visualize_xlsx.py:547-569 | `create_node_shapes` keeps only non-null spheres, at most one per node |
| XlsxDraw.NodeSpheresAligned | visualize_xlsx.py:555-563 | when no sphere is null the j-th sphere is the j-th node's, so sphere positions line up with the refs |
| XlsxDraw.NodeEntriesSpec | visualize_xlsx.py:868-886 | with ids assigned by position sphere i is registered, red, under node_i, and nothing else is registered |
| XlsxDraw.NodeEntriesKeys | visualize_xlsx.py:868-886 | the sphere loop registers node_0..node_{m-1} in that order and nothing else |
| XlsxDraw.NodeEntryAt | visualize_xlsx.py:868-886 | sphere j stays registered under node_j once later spheres are added |
| XlsxDraw.NodeEntriesValid | visualize_xlsx.py:880-886 | the sphere entries have distinct keys, are string ids, and all show red, the released colour of a node |
| XlsxDraw.Cylinders | visualize_xlsx.py:902-929 | `segment_shapes` holds only non-null cylinders, at most one per segment |
| XlsxDraw.SegmentEntriesSpec | visualize_xlsx.py:902-938 | segment i is registered, blue, under its index exactly when its cylinder is not null; the sphere entries are kept; nothing shows a highlight colour |
| XlsxDraw.SegmentEntriesShape | visualize_xlsx.py:902-938 | the cylinder loop keeps keys distinct and colours released, and adds exactly the indices of non-null cylinders |
| XlsxDraw.SegmentEntriesKeep | visualize_xlsx.py:902-938 | a sphere entry survives the cylinder loop |
| XlsxDraw.SegmentEntryAt | visualize_xlsx.py:932-938 | segment i's cylinder stays registered under i once later segments are drawn |
| XlsxDraw.ImportedEntriesSpec | visualize_xlsx.py:992-1008 | each non-null imported shape is registered, light gray, under its id; no other id is registered |
| XlsxImport.CategoryOfExplored | visualize_xlsx.py:1644-1685 | a solid, shell, face or edge is filed under its own display name |
| XlsxImport.FirstWord | visualize_xlsx.py:1698 | `split(' ')[0]` is the longest space-free start of the text |
| XlsxImport.IdPrefix | visualize_xlsx.py:1698 | every id of a category starts with that category's first word, which `lower()` leaves unchanged |
| XlsxImport.FirstWordAt | visualize_xlsx.py:1698 | the first word of a text whose first space is at n is its first n characters |
| XlsxImport.SeparatorNotBefore | visualize_xlsx.py:1698 | two equal texts built around a separator have it at the same place when neither first part holds it |
| XlsxImport.SplitAtSeparator | visualize_xlsx.py:1698 | texts built around a separator that neither first part holds split the same way |
| XlsxImport.DigitsHaveNoUnderscore | visualize_xlsx.py:1698 | the decimal text of a counter or hash holds no underscore |
| XlsxImport.ImportedIdInjective | visualize_xlsx.py:1698 | equal imported ids have equal counters, hashes and prefixes, so ids of shapes with different counters never collide |
| XlsxImport.ImportedIdNotNode | visualize_xlsx.py:1698 | no imported id starts with `node_`, so imported shapes keep the imported colours |
| XlsxImport.UniqueShapesSound | visualize_xlsx.py:1658-1668 | every shape the indexed map keeps is a non-null explored shape |
| XlsxImport.UniqueShapesDistinct | visualize_xlsx.py:1658-1668 | no two kept shapes are the same shape |
| XlsxImport.UniqueShapesCover | visualize_xlsx.py:1658-1668 | every non-null explored shape is kept, itself or a shape IsSame as it |
| XlsxImport.ImportedIds | visualize_xlsx.py:1676-1710 | the second pass gives the i-th unique shape the counter i |
| XlsxImport.ImportedIdsFresh | visualize_xlsx.py:1698-1710 | no two shapes get the same id and none gets a node id |
| XlsxImport.Categories | visualize_xlsx.py:1685 | each unique shape's category is `shape_types_to_explore.get(type, "其他")` |
| XlsxImport.TypeNames | visualize_xlsx.py:1684 | each unique shape's display name is `get_shape_type_name` of its type |
| XlsxImport.StrIds | visualize_xlsx.py:1709 | `all_shape_ids_in_tree` after m shapes is their ids in processing order |
| XlsxImport.StrIdsSnoc | visualize_xlsx.py:1709 | one more shape appends its id |
| XlsxImport.TypeGroups | visualize_xlsx.py:1688-1708 | the type groups are created in order of first sight |
| XlsxImport.TypeGroupsValid | visualize_xlsx.py:1688-1691 | the type groups keep distinct keys matching their map |
| XlsxImport.TypeGroupsKeys | visualize_xlsx.py:1688-1691 | a group exists exactly for each category some processed shape is filed under |
| XlsxImport.TypeGroupsSpec | visualize_xlsx.py:1708 | the group of category c holds exactly the ids of the shapes filed under c |
| XlsxImport.StepShapesSpec | visualize_xlsx.py:1703 | `step_shapes` holds every processed shape under its own id, in processing order, and nothing else |
| XlsxImport.StepShapesAt | visualize_xlsx.py:1703 | the i-th shape stays under its id once later shapes are added |
| XlsxImport.StepShapesValid | visualize_xlsx.py:1703 | `step_shapes` keeps distinct keys matching its map |
| XlsxImport.StepShapesImported | visualize_xlsx.py:1698-1703 | the shapes registered from the unique sequence keep distinct keys, none a node id |
| XlsxImport.ImportedInfosSpec | visualize_xlsx.py:1705 | each shape's record names its type; only the shapes' ids are added to `shape_to_info` |
| XlsxImport.TypeItem | visualize_xlsx.py:1722-1726 | a type node carries its ids as data over one item per id, in order |
| XlsxImport.ImportRoot | visualize_xlsx.py:1722-1729 | the model's item carries every id in processing order as data, over the type nodes in creation order |
| XlsxWindow.NothingShown | visualize_xlsx.py:130-133 | an empty display and an empty import dict satisfy the display invariant |
| XlsxWindow.Released | visualize_xlsx.py:880-886 | entries registered in their released colours with nothing highlighted satisfy the display invariant |
| XlsxWindow.ReleaseShows | visualize_xlsx.py:1102-1105 | releasing the highlight keeps the display invariant with nothing highlighted |
| XlsxWindow.SwitchShows | visualize_xlsx.py:1136-1142 | releasing the highlight and highlighting displayed ids keeps the display invariant with exactly those ids highlighted |
| XlsxWindow.PresentIds | visualize_xlsx.py:1115 | the comprehension's loop computes the registered ids of the item, in order |
| XlsxWindow.FindShapeId | visualize_xlsx.py:625-638 | the loop over `ais_shapes` finds the first entry, in insertion order, whose non-null shape IsSame as the pick |
| XlsxWindow.QueueEntriesStep | visualize_xlsx.py:701-719 | every queued entry stays an item of the tree at its path after a step of the search |
| XlsxWindow.QueueKeepsMatch | visualize_xlsx.py:701-719 | while the front item does not match, some queued item still has a match in its subtree |
| XlsxWindow.SearchTree | visualize_xlsx.py:695-719 | the breadth-first search finds nothing exactly when no item's data is the id or a list holding it; what it finds matches; and it stops at the first top-level item when that one matches (the case that decides every lookup, since the main root's list holds every id the window registers) |
| XlsxWindow.RegisterSpheres | visualize_xlsx.py:868-894 | the sphere loop, polled before each sphere, registers the spheres before the cancel under their node ids, in red |
| XlsxWindow.RegisterCylinders | visualize_xlsx.py:902-947 | the cylinder loop, polled before each segment, keeps the non-null cylinders before the cancel and registers them, blue, under their indices |
| XlsxWindow.RegisterImported | visualize_xlsx.py:992-1017 | the imported-shape loop, polled before each shape, registers the non-null shapes before the cancel, light gray, under their ids |
| XlsxWindow.CollectUnique | visualize_xlsx.py:1658-1669 | the first pass keeps the explored shapes an indexed map keeps |
| XlsxWindow.AnalyzeShapeAndBuildTree | visualize_xlsx.py:1632-1729 | the unique shapes are processed in order until a cancelled poll; each gets its id, its `step_shapes` entry and its type record; an interrupted analysis gives no root data, a complete one the root with every id and the type nodes in creation order |
| XlsxWindow.ProcessShapes | visualize_xlsx.py:1676-1729 | the second pass stores the shapes processed before the cancel and builds the root only when none was cancelled |
| XlsxWindow.DrawImported | visualize_xlsx.py:969-1024 | drawing the imported shapes registers them in their released colour, as many as the dialog lets through |
| XlsxWindow.Import | visualize_xlsx.py:1489-1621 | the steps after the resets leave exactly the outcome the import describes: no usable shape or a cancel before the analysis leaves everything empty; a cancel during or right after the analysis keeps the shapes and records stored so far but clears the tree; a cancel after the drawing keeps the drawn shapes and clears the tree; otherwise the model item, its shapes, records and drawn shapes stay |
| XlsxWindow.DrawScene | visualize_xlsx.py:846-947 | on an emptied display the spheres and then, unless cancelled between the loops, the cylinders are registered, with nothing highlighted |
| XlsxWindow.FiledStores | visualize_xlsx.py:1676-1710 | filing the first k unique shapes one by one gives the stores the import describes: `step_shapes`, the records, the type groups and the list of all ids |
| XlsxWindow.FileShapes | visualize_xlsx.py:1677-1710 | the second pass's loop leaves the stores of the shapes processed before the cancel |
| XlsxWindow.MainWindow.constructor | visualize_xlsx.py:114-263 | a new window has empty stores, an empty tree, nothing displayed, highlighted or selected, and the first drawing to come |
| XlsxWindow.MainWindow.FromRows | visualize_xlsx.py:114-263 | a window built from rows holds the parse's records and tree, with nothing highlighted or selected |
| XlsxWindow.MainWindow.ParseDfAndPopulateTree | visualize_xlsx.py:295-529 | the parse resets the stores and the display, keeps the as-written records of the rows read before the cancel, gives node i the id node_i and rebuilds the tree; the highlight is not reset |
| XlsxWindow.MainWindow.Reload | visualize_xlsx.py:298-313 | the stores and the tree take a parse's records and items and nothing is displayed |
| XlsxWindow.MainWindow.ReleaseHighlight | visualize_xlsx.py:1102-1105 | with something highlighted the highlight is released and forgotten and the info cleared; with nothing highlighted nothing changes |
| XlsxWindow.MainWindow.SwitchHighlightTo | visualize_xlsx.py:1136-1142 | the old highlight is released and the given displayed ids are highlighted and stored |
| XlsxWindow.MainWindow.OnTreeItemClicked | visualize_xlsx.py:1092-1164 | an item with no displayed id releases the highlight; re-clicking the selected item releases it and deselects; another item's displayed ids replace the highlight, it becomes selected and its first id's info is shown; the display invariant is kept |
| XlsxWindow.MainWindow.Deselect | visualize_xlsx.py:1128-1134 | re-clicking: the highlight is released, nothing is highlighted or selected, the info is cleared |
| XlsxWindow.MainWindow.SelectItem | visualize_xlsx.py:1136-1160 | the item's displayed ids replace the highlight, it becomes selected and the info of the first id is shown |
| XlsxWindow.MainWindow.ShapeSelectionCallback | visualize_xlsx.py:590-682 | an empty pick or one that resolves to no id releases the highlight; a null pick is ignored; a resolved pick highlights that id alone (no release when it was already the highlight), shows its info and selects a matching tree item |
| XlsxWindow.MainWindow.HighlightPicked | visualize_xlsx.py:652-678 | the picked id alone is highlighted, the old highlight released first unless it was that id, and its info is shown |
| XlsxWindow.MainWindow.FindAndSelectTreeItem | visualize_xlsx.py:691-735 | the first item the search finds becomes the current item; with none the current item is kept |
| XlsxWindow.MainWindow.CreateNodeShapes | visualize_xlsx.py:547-569 | one sphere per node in insertion order, null ones dropped |
| XlsxWindow.MainWindow.DrawSegments | visualize_xlsx.py:834-957 | the display and the highlight are reset, spheres are created when there are none, then spheres and cylinders are registered as far as the first drawing's dialog allows, and the drawing is marked done once the segments are reached |
| XlsxWindow.MainWindow.ShowScene | visualize_xlsx.py:840-957 | the display takes what a drawing registered, with nothing highlighted |
| XlsxWindow.MainWindow.DrawImportedShapes | visualize_xlsx.py:969-1024 | the display and the highlight are reset and the non-null imported shapes are registered as far as the dialog allows |
| XlsxWindow.MainWindow.ImportCadFile | visualize_xlsx.py:1482-1631 | the stores, the tree and the display are reset and the window then holds exactly the import's outcome, the display invariant kept |
| XlsxWindow.MainWindow.Install | visualize_xlsx.py:1495-1507 | the stores, the tree and the display take what an import left |
| XlsxWindow.MainWindow.HighlightShapes | visualize_xlsx.py:1035-1074 | each displayed id of the list takes the colour for the flag; nothing else changes |
| XmlParse.IntIds | visualize_xml.py:260-261 | the ids `lo .. hi-1` in increasing order, one per segment index |
| XmlParse.IntIdsSplit | visualize_xml.py:270-274 | extending a list by the next level's run of indices gives one longer run |
| XmlParse.LevelGrow | visualize_xml.py:145-276 | each pass of a nested loop appends the element's items, list and segments to what the passes before it produced |
| XmlParse.LevelRun | visualize_xml.py:270-276 | when each element's list is the run of its own segment indices, the `extend` of those lists is the run of the whole level |
| XmlParse.LevelPrefix | visualize_xml.py:145-276 | the items and segments produced by the first k elements are a prefix of those of the whole level |
| XmlParse.LevelItemAt | visualize_xml.py:145-236 | with one tree item per element, item j belongs to element j, read where its segments start |
| XmlParse.LevelEndsAt | visualize_xml.py:252 | element j's segments occupy `self.segments` from the end of the elements before it to the start of the next |
| XmlParse.LevelCount | visualize_xml.py:145-146 | one tree item per element gives as many items as elements |
| XmlParse.OffsetMonotone | visualize_xml.py:252 | `self.segments` only grows, so the element offsets never decrease |
| XmlParse.ReadsAreRuns | visualize_xml.py:230-276 | at network, segment, subnet and net level, the stored list is exactly the run of indices of the segments appended inside that element |
| XmlParse.NetsReadOne | visualize_xml.py:145-236 | each net and each network produces exactly one tree item at its level |
| XmlParse.NetList | visualize_xml.py:145-276 | the list on net j is the consecutive, increasing run of indices from where its segments start to where the next net's start |
| XmlParse.NetListsOrdered | visualize_xml.py:274-276 | every index on an earlier net is below every index on a later net, so no segment is listed on two nets |
| XmlParse.AllIndices | visualize_xml.py:252-276 | together the nets list every index of `self.segments` exactly once, in order |
| XmlParse.NetworkIndex | visualize_xml.py:238-261 | a network item stores an index exactly when both `StartPoint` and `EndPoint` exist, and that index is the position of its own segment (the length less one after the append) |
| XmlParse.NetworksStep | visualize_xml.py:233-261 | one pass of the network loop equals the specification of the first i+1 networks |
| XmlParse.ReadNetworks | visualize_xml.py:230-261 | the network loop of a segment produces the items, list and segments its specification gives |
| XmlParse.ReadSegment | visualize_xml.py:228-270 | a segment's item over its networks stores their list |
| XmlParse.SegmentsStep | visualize_xml.py:227-271 | one pass of the segment loop equals the specification of the first i+1 segments |
| XmlParse.ReadSegments | visualize_xml.py:191-271 | the segment loop of a subnet produces its specification |
| XmlParse.ReadSubNet | visualize_xml.py:189-273 | a subnet's item over its net-point items (when both `NetStartPoint` and `NetEndPoint` exist) and its segments' items stores their concatenated list |
| XmlParse.SubNetsStep | visualize_xml.py:188-274 | one pass of the subnet loop equals the specification of the first i+1 subnets |
| XmlParse.ReadSubNets | visualize_xml.py:188-274 | the subnet loop of a net produces its specification |
| XmlParse.ReadNet | visualize_xml.py:146-276 | a net's item over its `Devices` and `IsoelectricPoints` groups (when present) and its subnets stores their concatenated list |
| XmlParse.NetsStep | visualize_xml.py:145-276 | one pass of the net loop equals the specification of the first i+1 nets |
| XmlParse.ReadNets | visualize_xml.py:121-276 | on emptied stores the net loop gives the document's top-level items and `self.segments` |
| XmlDraw.Recoloured | visualize_xml.py:440-464 | recolouring keeps the same keys in the same order and every shape; only colours change |
| XmlDraw.RecolouredColour | visualize_xml.py:451-460 | a registered id listed in `shape_ids` takes yellow when highlighting and blue when releasing; every other id keeps its colour |
| XmlDraw.RecolouredSnoc | visualize_xml.py:451-460 | recolouring one more id after a list is recolouring the longer list |
| XmlDraw.RecolouredNone | visualize_xml.py:448 | an empty `shape_ids` changes nothing |
| XmlDraw.HighlightRoundTrip | visualize_xml.py:440-464 | from an all-blue display, highlighting and then releasing the same ids restores the display exactly |
| XmlDraw.SwitchHighlight | visualize_xml.py:484-508 | releasing the old highlight and highlighting a new list leaves exactly the new list yellow and everything else blue |
| XmlDraw.ClearHighlight | visualize_xml.py:476-486 | releasing the old highlight leaves every shape blue |
| XmlDraw.Highlight | visualize_xml.py:447-460 | working through `shape_ids[i:i + 100]` for i in steps of 100 recolours the same ids as one pass over the whole list |
| XmlDraw.HighlightSlicePass | visualize_xml.py:449-460 | the inner loop over one slice extends the recolouring from the slice's start to its end |
| XmlDraw.IdsOf | visualize_xml.py:347-356 | the ids of the (id, shape) pairs, in order |
| XmlDraw.RegisteredKeys | visualize_xml.py:347-356 | with distinct ids, the keys of `ais_shapes` after m pairs are their ids, in order |
| XmlDraw.RegisteredValid | visualize_xml.py:347-356 | the registered dict keeps distinct keys and shows everything blue |
| XmlDraw.RegisteredAt | visualize_xml.py:356 | pair j, once registered, stays registered with its shape, blue, under its id |
| XmlDraw.SegmentList | visualize_xml.py:314-342 | the segment loop pairs the cylinder of segment i with the index i |
| XmlDraw.SegmentListDistinct | visualize_xml.py:314-342 | segment indices never repeat |
| XmlDraw.StepList | visualize_xml.py:393-408 | the imported loop pairs each `step_shapes` key with its shape, in insertion order |
| XmlDraw.StepListDistinct | visualize_xml.py:393 | a dict's keys are distinct, so the imported ids are too |
| XmlDraw.Flush | visualize_xml.py:345-359 | flushing a batch registers exactly its pairs, blue, after those already registered |
| XmlDraw.Pass | visualize_xml.py:342-359 | after pass k, registered pairs are the full batches of 50 so far (all of them after the last pass) and the batch holds the rest |
| XmlDraw.Cylinders | visualize_xml.py:338 | `segment_shapes` after k passes holds segment i's cylinder at position i |
| XmlDraw.DrawSegments | visualize_xml.py:294-361 | the loop makes as many passes as the dialog allows (cancel checked before each), keeps the first k cylinders in order, and registers the full batches flushed so far |
| XmlDraw.SegmentPass | visualize_xml.py:324-361 | one pass makes and keeps the cylinder of segment k and adds it to the batch, flushing when due |
| XmlDraw.DrawImported | visualize_xml.py:370-427 | nothing is drawn for an empty `step_shapes`; otherwise the passes the dialog allows register the full batches flushed so far |
| XmlDraw.SegmentsDrawn | visualize_xml.py:314-361 | a drawing that is not cancelled registers exactly the indices of `self.segments`, each with its own cylinder, blue |
| XmlDraw.SegmentsRegistered | visualize_xml.py:345-356 | once f segments are registered, the registered ids are exactly the indices below f |
| XmlDraw.SegmentsCut | visualize_xml.py:316-345 | a drawing cancelled after k passes registers only segments below a multiple f of 50 with k - 50 < f <= k: the unfilled batch is dropped |
| XmlDraw.ImportedDrawn | visualize_xml.py:393-427 | an imported drawing that is not cancelled registers exactly the `step_shapes` keys, each with its own shape, blue |
| XmlDraw.IntPresent | visualize_xml.py:498-501 | `valid_ids` holds exactly the int ids of the list that are in `ais_shapes`, and no more of them than the list |
| XmlDraw.IntPresentOfAllPresent | visualize_xml.py:498-501 | a list of registered indices passes through whole and in order |
| XmlDraw.Clickable | visualize_xml.py:469-508 | the ids a click highlights: a single id when registered, the registered int ids of a list, nothing for an item without data |
| XmlDraw.StringListsHighlightNothing | visualize_xml.py:500 | a list holding only string ids highlights nothing |
| XmlDraw.ClickableRecoloured | visualize_xml.py:492-508 | recolouring does not change which ids a click highlights |
| XmlDraw.IntPresentSameDomain | visualize_xml.py:500 | `valid_ids` depends only on which ids are in `ais_shapes` |
| XmlImport.KindOfId | visualize_xml.py:875-924 | the first character of an id tells the kind whose name starts it |
| XmlImport.IdTextInjective | visualize_xml.py:924 | two ids `{name}_{i+1}_{id % 10000}` are equal only for the same kind, the same position and the same `id() % 10000` |
| XmlImport.KindIds | visualize_xml.py:921-930 | the ids of the shapes of one kind, one per shape, in explorer order |
| XmlImport.KindTexts | visualize_xml.py:924-927 | the `step_shapes` keys for one kind, one per shape, in explorer order |
| XmlImport.KindTextsDistinct | visualize_xml.py:924 | the ids of one kind never repeat (their positions differ) and each tells its kind |
| XmlImport.Texts | visualize_xml.py:927-930 | the strings behind a list of string ids, in order |
| XmlImport.BatchNodes | visualize_xml.py:907-933 | `ceil(len / 50)` batch nodes, batch b holding the ids from `50b` to `min(50b + 50, len)` |
| XmlImport.AnalyzeShapeAndBuildTree | visualize_xml.py:861-939 | the root item and `step_shapes` are what the kind-by-kind specification of the analysis gives |
| XmlImport.KindPass | visualize_xml.py:896-936 | a kind the explorer found nothing of adds nothing; otherwise its type node, ids and shapes are added |
| XmlImport.BuildTypeNode | visualize_xml.py:900-936 | a kind with shapes gets a type node over its batch nodes storing all its ids, and its ids and shapes are appended |
| XmlImport.BatchPass | visualize_xml.py:910-933 | each pass of the batch loop keeps the lists, `step_shapes` and the batch nodes equal to their specification after b + 1 batches |
| XmlImport.BuildBatch | visualize_xml.py:912-930 | one batch stores shapes `start_idx` to `end_idx - 1` under their ids and appends those ids to all three lists |
| XmlImport.StoreShape | visualize_xml.py:923-930 | one shape is stored under its id and the id appended to the batch, type and root lists |
| XmlImport.Lists | visualize_xml.py:933-936 | the lists stored on a row of items, in order |
| XmlImport.TypeNodeLists | visualize_xml.py:928-936 | a type node's list is its batch nodes' lists one after the other |
| XmlImport.AddKindLists | visualize_xml.py:929-936 | adding a kind keeps the root's list equal to the type nodes' lists one after the other |
| XmlImport.AnalysedLists | visualize_xml.py:896-939 | after every kind, the root's list is the type nodes' lists one after the other |
| XmlImport.RootLists | visualize_xml.py:939 | the root's list is its type nodes' lists one after the other |
| XmlImport.AddKindAll | visualize_xml.py:930 | adding a kind appends exactly its ids to the root's list |
| XmlImport.RootListOrder | visualize_xml.py:875-939 | the root's list holds the solids' ids, then the shells', faces', wires' and edges', in the order the dict lists the kinds |
| XmlImport.Fresh | visualize_xml.py:927 | ids of a new kind are none of them a key already stored |
| XmlImport.AddKindKeys | visualize_xml.py:927-930 | adding a kind keeps `step_shapes` keyed by the root's ids in order, all from the kinds so far |
| XmlImport.KeysStep | visualize_xml.py:927-930 | appending a kind's ids to the root list and their texts to the keys keeps those facts |
| XmlImport.TextsAppend | visualize_xml.py:930 | the texts of appended ids are the appended texts |
| XmlImport.KindsAppend | visualize_xml.py:930 | appending ids of earlier kinds keeps every id of the root list from the first t kinds |
| XmlImport.AddKindValues | visualize_xml.py:927 | adding a kind keeps every stored shape and stores each of its shapes under its own id |
| XmlImport.StoresStep | visualize_xml.py:896-930 | adding the next kind extends the stored kinds by it |
| XmlImport.AnalysedFacts | visualize_xml.py:896-939 | after t kinds the keys match the root's list and every shape of those kinds is stored |
| XmlImport.ImportedStep | visualize_xml.py:872-939 | after the analysis the root's ids are distinct, `step_shapes` is keyed by them in the root's order, and every shape the explorer found is stored under its id, none overwriting another |
| XmlWindow.TypeNodeNamed | visualize_xml.py:928-936 | a type node and each of its batch nodes store string ids only |
| XmlWindow.AddKindNamed | visualize_xml.py:896-936 | adding a kind adds at most its type node, which stores string ids only |
| XmlWindow.AnalysedNamed | visualize_xml.py:896-936 | the type nodes of every kind store string ids only |
| XmlWindow.NamedAt | visualize_xml.py:900-939 | every item reached below the import root stores string ids only |
| XmlWindow.ImportedItemsHighlightNothing | visualize_xml.py:496-504 | no item of an imported model's tree highlights anything: the click handler keeps only int ids from a list, and every such item stores string ids |
| XmlWindow.NetHighlightsItsSegments | visualize_xml.py:252-276 | once all segments are drawn, clicking net j highlights exactly the run of indices of its own segments |
| XmlWindow.ValidIds | visualize_xml.py:498-501 | the loop collecting `valid_ids` keeps exactly the registered int ids, in order |
| XmlWindow.ClickedIds | visualize_xml.py:492-508 | the branches of the click handler pick the ids `Clickable` gives |
| XmlWindow.MainWindow.constructor | visualize_xml.py:31-111 | a new window has an empty tree, no segments, shapes, display entries, highlight or selection |
| XmlWindow.MainWindow.FromDocument | visualize_xml.py:31-117 | a window opened on a file first parses it into a new tree and segments, with nothing drawn yet |
| XmlWindow.MainWindow.ParseXmlAndPopulateTree | visualize_xml.py:119-292 | the tree, segments, shapes and display entries are cleared, then a readable document's items and segments replace them; an unreadable one leaves them empty |
| XmlWindow.MainWindow.DrawSegments | visualize_xml.py:294-368 | display and highlight are reset, then the passes the dialog allows keep their cylinders and register the flushed batches, keeping the colour invariant |
| XmlWindow.MainWindow.DrawImportedShapes | visualize_xml.py:370-438 | display and highlight are reset and the imported shapes are registered in the batches the dialog (when shown) allows |
| XmlWindow.MainWindow.HighlightShapes | visualize_xml.py:440-464 | each registered id of the list turns yellow, or blue again |
| XmlWindow.MainWindow.OnTreeItemClicked | visualize_xml.py:466-508 | an item without data changes nothing; clicking the selected item releases its highlight and deselects; any other item is selected and exactly its clickable ids become highlighted |
| XmlWindow.MainWindow.Deselect | visualize_xml.py:476-481 | the highlight is released and nothing is selected |
| XmlWindow.MainWindow.Select | visualize_xml.py:484-508 | the old highlight is released, the item selected, and its clickable ids highlighted |
| XmlWindow.MainWindow.ImportCadFile | visualize_xml.py:764-852 | everything is cleared; an unreadable file or a null shape stops there; otherwise the tree is the analysed root and the imported shapes are drawn |
| Batches.BatchCountPositive | visualize_xml.py:908 | `(len + 49) // 50` is at least one for a non-empty kind |
| Batches.BatchBounds | visualize_xml.py:908-913 | batch k is non-empty and holds at most 50 ids; the last ends at `len(shapes)`, every other where the next starts |
| Batches.BatchStarts | visualize_xml.py:448 | `range(0, len, 100)` runs exactly while a slice is left |
| Batches.BatchOf | visualize_xml.py:910-921 | shape i lies in batch `i // 50` and in no other |
| Batches.Batch | visualize_xml.py:912-921 | batch k is `s[k * size:min(k * size + size, len(s))]`, element by element |
| Batches.Batches | visualize_xml.py:910-933 | the first m batches, in order |
| Batches.BatchesConcat | visualize_xml.py:910-930 | the first m batches, one after the other, are the first `min(m * size, len)` elements in order |
| Batches.CoveredStep | visualize_xml.py:912-913 | batch m - 1 runs from where the first m - 1 batches end to where the first m end |
| Batches.BatchesAll | visualize_xml.py:907-930 | all the batches, one after the other, are the whole list: nothing is lost or repeated |
| Batches.Flushed | visualize_xml.py:342-359 | the pairs flushed after c passes are never more than c |
| Batches.FlushedClosed | visualize_xml.py:345 | before the last pass, the flushed pairs are the full batches: `c // 50 * 50` |
| Batches.FlushedAll | visualize_xml.py:345-361 | a loop that is not cut short flushes every pair, the last partial batch included |
| Batches.FlushedCut | visualize_xml.py:316-345 | a loop cut short after c passes has flushed a multiple of 50 and lost fewer than 50 pairs |
| Dicts.Put | visualize_xml.py:927 | `d[k] = v` stores v under k, keeps the other entries, and appends k to the key order only when it is new |
| Dicts.PutTwice | visualize_xml.py:927 | assigning a key twice leaves the second value at the key's first position |
| Dicts.PutAllKeys | visualize_xml.py:921-927 | storing new, distinct keys appends them to the key order, in order |
| Dicts.PutAllValues | visualize_xml.py:921-927 | storing new, distinct keys keeps every earlier entry and gives each new key its value |
| Dicts.Values | visualize_xlsx.py:526 | `list(d.values())` lists the values in key order |
| Decimal.ValueOfShow | Main.java:32 | reading back the decimal text of n gives n |
| Decimal.ShowInjective | visualize_xml.py:924 | distinct positions give distinct decimal texts |
| Config.Cleaned | configmanager.cpp:55-56 | each piece trimmed and lowered, in order |
| Config.CleanedPiece | configmanager.cpp:56 | a piece without commas cleans to a trimmed, lower-case string without commas |
| Config.ExtensionsAsWrittenTidy | configmanager.cpp:54-58 | every extension of the list as written is trimmed, lower case and comma-free; a non-empty one is in it exactly when it is in the intended list; and "" is in it exactly when some non-empty piece between commas is blank |
| Config.AsWrittenPieces | configmanager.cpp:54-56 | each extension of the list as written comes from a non-empty piece between commas, trimmed and lowered, and is tidy |
| Config.AsWrittenHoldsIntended | configmanager.cpp:54-58 | a non-empty extension is in the list as written exactly when it is in the intended list |
| Config.AsWrittenInIntended | configmanager.cpp:54-58 | a non-empty extension of the list as written is in the intended list |
| Config.IntendedInAsWritten | configmanager.cpp:54-58 | every extension of the intended list is in the list as written |
| Config.AsWrittenBlank | configmanager.cpp:54-56 | the list as written holds "" exactly when some non-empty piece between commas is white space |
| Config.ExtensionsClean | configmanager.cpp:54-58 | every extension of the intended list is non-empty, trimmed, lower case and comma-free, and the list holds exactly the non-blank pieces between commas, cleaned |
| Config.BlankEntryAsWritten | configmanager.cpp:54-56 | as written, `"stp, "` gives the list `["stp", ""]`, because empty parts are skipped before trimming; the intended list is `["stp"]` |
| Config.SplitTwo | configmanager.cpp:54 | two comma-free pieces joined by one comma split back into those two |
| Config.CleanedTwo | configmanager.cpp:56 | a clean piece cleans to itself and a blank one to "" |
| Config.AssignAt | configmanager.cpp:55-59 | after the loop, the listed extensions map to the type and every other extension keeps its earlier mapping |
| Config.Contributions | configmanager.cpp:36-49 | each child group's contribution, in order, under either extension list, nothing for a skipped group |
| Config.ContributionsClean | configmanager.cpp:41-65 | every extension a group contributes is trimmed, lower case and comma-free, and under the intended list never "" |
| Config.RecordValid | configmanager.cpp:51-73 | recording one group keeps the registry invariant: extension lists and display names for the same typed-with-a-path types, tidy extensions mapping to types that list them |
| Config.RecordAllValid | configmanager.cpp:36-76 | the `foreach` over any number of groups keeps the registry invariant |
| Config.LastFor | configmanager.cpp:36-76 | the last accepted group of a type among the first k, if any |
| Config.RecordAllTypes | configmanager.cpp:51-73 | after the loop, a type holds what its last accepted group recorded, and what it held before when there is none |
| Config.Owner | configmanager.cpp:58 | the last accepted group listing an extension among the first k, if any |
| Config.RecordAllExtension | configmanager.cpp:58 | an extension maps to the type of the last group listing it, later groups overwriting earlier ones; one no group lists keeps its earlier mapping |
| Config.CollectStep | configmanager.cpp:55-59 | one more piece is cleaned in place and mapped to the type, "" included, with the pieces not yet reached untouched |
| Config.CollectExtensions | configmanager.cpp:54-59 | the loop over the non-empty pieces leaves the list as written (blank pieces become "") and maps each of its entries to the type |
| Config.ConfigManager.constructor | configmanager.cpp:7-10 | a new manager has no configuration path and empty maps |
| Config.ConfigManager.Initialize | configmanager.cpp:12-79 | the default path `currentPath() + "/../config.ini"` when none is given; an unreadable file or one without `FileTypes` groups fails and leaves the maps; otherwise every group is loaded in order with its list as written and the result is `validateConfiguration()` |
| Config.ConfigManager.LoadType | configmanager.cpp:37-75 | a group is skipped unless its trimmed path is non-empty and executable; otherwise its path, its extension list as written and its display name are recorded |
| Config.ConfigManager.ValidateConfiguration | configmanager.cpp:81-89 | true exactly when some type has a handler path |
| Config.ConfigManager.SupportedFileTypes | configmanager.cpp:96-99 | every type with a handler path, once each, in ascending key order |
| Config.ConfigManager.SetExecutablePathForType | configmanager.cpp:116-118 | the type's handler path is set and nothing else changes; the registry invariant is kept |
| Config.LookupIgnoresCase | configmanager.cpp:106-109 | an extension finds the same type in any spelling that lowers the same |
| Config.NoTypeForEmptyExtension | configmanager.cpp:54-58 | with the corrected loader (blank pieces dropped after trimming), nothing maps the empty extension |
| Config.BlankExtensionTyped | configmanager.cpp:54-58 | as written, a single accepted group with `extensions` of a clean extension, a comma and blanks lists that extension and "", and "" maps to its type |
| Config.FoundTypeIsConfigured | configmanager.cpp:51-73 | a type found for an extension has an extension list, a display name and a handler path |
| Config.InitializedLookups | configmanager.cpp:36-114 | after loading, an accepted type answers its trimmed path, its extension list (as written or intended, whichever the loader used) and its display name (falling back to the type); any other type answers "", no extensions and its own name |
| Config.InitializedExtension | configmanager.cpp:54-59 | after loading with either list, an extension maps to the type of the last group listing it, and to "" when none does |
| Config.OwnerIsLastGroup | configmanager.cpp:45-58 | under either list, the group owning an extension is accepted and lists it, and no later accepted group lists it |
| Config.DisplayNameNotBlank | configmanager.cpp:68-73 | a display name is never blank for a type with a non-blank name |
| Processing.AfterLast | filevisualizer.cpp:214 | the text after the last separator holds no separator and is no longer than the input |
| Processing.AfterLastShape | filevisualizer.cpp:214 | that text is the end of the input and, when the input has the separator, directly follows one |
| Processing.Suffix | filevisualizer.cpp:214 | `QFileInfo::suffix()` holds no '.' |
| Processing.SuffixShape | filevisualizer.cpp:214 | the file name ends the path, and a non-empty suffix ends the file name right after a '.' |
| Processing.DigitRun | filevisualizer.cpp:364 | `\d+` matches greedily: a non-empty run of digits not followed by another digit |
| Processing.FirstMatch | filevisualizer.cpp:364-366 | `indexIn` finds the leftmost position where `Progress:\s*(\d+)%` matches, and nothing matches before it |
| Processing.ToInt | filevisualizer.cpp:368 | `toInt()` of the captured digits lies between 0 and the int maximum (0 when they overflow) |
| Processing.ProgressIn | filevisualizer.cpp:362-370 | a progress read from the trimmed output is never negative and fits an int |
| Processing.DigitsCaptured | filevisualizer.cpp:364-368 | the captured group is digits only |
| Processing.NoPercentNoProgress | filevisualizer.cpp:364-366 | output without a '%' reports no progress |
| Processing.ProgressLine | filevisualizer.cpp:364-370 | a line `Progress: n%` reports exactly n |
| Processing.DigitRunOf | filevisualizer.cpp:364 | the run of digits before a non-digit is all of them |
| Processing.TransitionsValid | filevisualizer.cpp:220-432 | every slot keeps the progress non-negative and the bar within 0 to 100 |
| Processing.TickSteps | filevisualizer.cpp:382-398 | a tick moves the progress only while processing below 90, by 1 to 3 and never past 90, and emits it; otherwise nothing changes |
| Processing.TicksStayAtMost90 | filevisualizer.cpp:386-392 | however many ticks come, the timer alone never takes the progress past 90 |
| Processing.OutputSteps | filevisualizer.cpp:358-380 | output reporting a progress sets it and emits it, whatever it was; other output changes nothing |
| Processing.FinishedEnds | filevisualizer.cpp:329-356 | a finished process always ends the job and stops the timer; it succeeds exactly on a normal exit with code 0, and only then does the bar show 100 |
| Processing.CancelResets | filevisualizer.cpp:400-432 | a cancel acts only on a running job the user confirms: then the job is idle, the timer stopped, the bar at 0 and `处理已取消` reported |
| Processing.ErrorEnds | filevisualizer.cpp:280-327 | an error ends the job with its message in every case but a crash after the timer was stopped, which changes nothing |
| Processing.StartOutcome | filevisualizer.cpp:220-278 | starting succeeds exactly when a handler path exists and the process started; then the job runs from 0 with the timer on and `processingStarted` emitted; without a handler nothing but the cancel happens; a failed start marks the job idle |
| Processing.FileVisualizer.constructor | filevisualizer.cpp:20-58 | a new window has no job and no current file |
| Processing.FileVisualizer.UpdateProgress | filevisualizer.cpp:382-398 | the job fields become those of one tick; the progress stays non-negative and the bar within 0 to 100 |
| Processing.FileVisualizer.HandleProcessOutput | filevisualizer.cpp:358-380 | the job fields become those `JobOutput` gives for the decoded output; the progress stays non-negative and the bar within 0 to 100 |
| Processing.FileVisualizer.HandleProcessError | filevisualizer.cpp:280-327 | the job fields become those `JobError` gives; the progress stays non-negative and the bar within 0 to 100 |
| Processing.FileVisualizer.HandleProcessFinished | filevisualizer.cpp:329-356 | the job fields become those `JobFinished` gives, with the current type's display name; the progress stays non-negative and the bar within 0 to 100 |
| Processing.FileVisualizer.CancelProcessing | filevisualizer.cpp:400-432 | the job fields become those `JobCancel` gives; the progress stays non-negative and the bar within 0 to 100 |
| Processing.FileVisualizer.StartFileProcessing | filevisualizer.cpp:220-278 | the job fields and the result are those `JobStart` gives for the type's handler path; the progress stays non-negative and the bar within 0 to 100 |
| Processing.FileVisualizer.ImportFile | filevisualizer.cpp:183-209 | an inaccessible file or one of no known type is refused with nothing changed; otherwise it becomes the current file and its processing starts; the progress stays non-negative and the bar within 0 to 100 |
| Processing.DetectIgnoresCase | filevisualizer.cpp:211-218 | detection gives the type of the suffix in any case |
| Processing.NoSuffixNoType | filevisualizer.cpp:194-218 | with the corrected loader, a file without a suffix is detected as no type, the value `importFile` refuses |
| Processing.NoSuffixTypedAsWritten | filevisualizer.cpp:194-218 | as written, with a single group whose `extensions` ends in a blank piece, a file without a suffix is detected as that group's type |
| QtText.TrimStart | configmanager.cpp:41 | leading white space removed: what is left is no longer and does not start with white space |
| QtText.TrimStartSuffix | configmanager.cpp:41 | what is left after the leading white space is the end of the string |
| QtText.TrimStartBlank | configmanager.cpp:41 | everything removed from the start is white space |
| QtText.TrimEnd | configmanager.cpp:41 | trailing white space removed: what is left is a prefix that does not end with white space |
| QtText.TrimEndBlank | configmanager.cpp:41 | everything removed from the end is white space |
| QtText.TrimShape | configmanager.cpp:41 | `trimmed()` is the piece after the leading white space that neither starts nor ends with white space |
| QtText.TrimEmpty | configmanager.cpp:41-45 | only a string of white space trims to the empty string |
| QtText.TrimIdempotent | configmanager.cpp:41 | trimming a trimmed string changes nothing |
| QtText.ToLower | configmanager.cpp:56 | `toLower()` lowers character by character and keeps the length |
| QtText.ToLowerIdempotent | configmanager.cpp:56 | lowering a lowered string changes nothing and leaves no ASCII capital |
| QtText.TrimToLower | configmanager.cpp:56 | lowering and trimming commute |
| QtText.TrimStartToLower | configmanager.cpp:56 | lowering and removing leading white space commute when lowering keeps white space |
| QtText.TrimEndToLower | configmanager.cpp:56 | lowering and removing trailing white space commute when lowering keeps white space |
| QtText.Split | configmanager.cpp:54 | `split(",")` has one more piece than there are commas |
| QtText.SplitPieces | configmanager.cpp:54 | no piece holds a comma |
| QtText.SplitSnoc | configmanager.cpp:54 | one more character: a comma starts a new piece, anything else extends the last |
| QtText.SplitExtend | configmanager.cpp:54 | comma-free text extends the last piece |
| QtText.JoinSplit | configmanager.cpp:54 | joining the pieces with commas gives back the string that was split |
| QtText.JoinLast | configmanager.cpp:54 | extending the last piece extends the joined string at its end |
| QtText.NonEmpty | configmanager.cpp:54 | `SkipEmptyParts` keeps exactly the non-empty pieces, in order |
| QtText.BelowIrreflexive | configmanager.cpp:96-99 | the key order puts no string before itself |
| QtText.BelowTransitive | configmanager.cpp:96-99 | the key order is transitive |
| QtText.BelowTotal | configmanager.cpp:96-99 | of two different strings one comes first |
| QtText.Least | configmanager.cpp:96-99 | the least string of a non-empty set of keys is in it and comes before every other |
| QtText.SortedKeys | configmanager.cpp:96-99 | `QMap::keys()` lists each key once, in ascending order |

## Left out

- Qt widgets, layouts, dialogs, message boxes, status-bar text and the progress dialogs' values and labels. Only whether a dialog reports cancelled is modelled, as the pass at which it does.
- OCC geometry: cylinders, spheres, `gp_*`, STEP/IGES reading and writing, `TopExp_Explorer` and `HashCode`. A shape is an opaque handle and `IsSame` compares its geometry and placement. The explorer and `id()` are parameters.
- Floating point: coordinates are opaque values that are stored and shown. The zero-length skip and the radii are left out, because they depend on `Distance`.
- QProcess launching, waiting and terminating. Re-entrant signals are not modelled: those fired during `terminate`/`waitForFinished` inside `cancelProcessing`, and the `errorOccurred` slot (`handleProcessError`) that can run inside `waitForStarted` in `startFileProcessing` (filevisualizer.cpp:255-257) when the program fails to start. The model assumes no slot runs while another runs.
- `QSettings` and `QFileInfo`: their answers are parameters. The write back to the INI file in `setExecutablePathForType` is I/O and is not modelled; only the map update is.
- A failed `initialize` closing the window (filevisualizer.cpp constructor) is not modelled; the window is built over a given registry.
- Unicode: `toLower()` is modelled on ASCII letters only. `QMap` key order is modelled as code-point order, which agrees with Qt's UTF-16 order except for characters outside the Basic Multilingual Plane.
- The `selectFile` filter built from the supported types, `exportFile`, `closeEvent` and the export functions of both viewers are left out: they are UI and CAD I/O.
- Cancellation leaves partial state in the source (partial records in the row loop; only the tree and display cleared on a cancelled import). The model states exactly what is left and does not claim a rollback.
- XlsxWindow.MainWindow.ParseDfAndPopulateTree: ensures the window invariant only when `highlighted_shapes` is empty on entry, because the source does not reset that list there; its only caller is the constructor, where the list is empty.
- XlsxWindow.MainWindow.ImportCadFile: every failure to read or transfer the file is one outcome (no shape), since the reader's status codes are not modelled.
- XlsxWindow.MainWindow.DrawSegments: the reset of `ais_shapes` is placed after the node shapes are created. The final state is the same, since making node shapes does not touch `ais_shapes`.
- Processing.FileName: paths take '/' as their only separator, as QFileInfo does on Unix; the Windows conversion of `\` to '/' is not modelled, so for `C:\a.b\file` the model's suffix is `b\file` where Qt on Windows gives "". Processing.Suffix inherits this.
- Processing.Suffix: its own contract states only that the suffix holds no '.'; where it sits in the path is stated by Processing.SuffixShape.
- TreeCamera.ParseInt: only the ASCII digits '0' to '9' are digits, whereas `Integer.parseInt` also accepts other Unicode decimal digits (through `Character.digit`); a token of such digits is modelled as a NumberFormatException.
- TreeCamera.Dfs: the Java `dfs` recurses once per tree level, so a deep chain-shaped tree (such as the input `1 2 N 3 N 4 N …`) exhausts the stack with a StackOverflowError; the model's Dfs is total and stack exhaustion is not modelled.
- TreeCamera.CoverCostIsAchieved: attainment, and with it optimality, is proved only for trees of fewer than 3001 nodes, because the witness construction needs every dfs value it meets to lie below the sentinel 3001 the code uses for "impossible", which a node count below 3001 guarantees; the lower bound TreeCamera.CoverCostIsLower holds for every tree.
- TreeCamera.BuildTree: inherits TreeCamera.ParseInt's ASCII-only digits, so tokens of non-ASCII decimal digits are read as unparsable.
- TreeCamera.MinCameraCover: inherits TreeCamera.ParseInt's ASCII-only digits.
- Processing.DigitRun: `\d` is modelled as the ASCII digits only, whereas QRegExp's `\d` matches any Unicode decimal digit.
- Processing.FirstMatch: inherits Processing.DigitRun's ASCII-only `\d`, so a progress figure written in non-ASCII digits is not found.
- XmlParse.ReadNets: `float()` raising on a missing or non-numeric coordinate attribute (visualize_xml.py:204-212, 242-251) is not modelled; every coordinate is taken as readable.
- XmlWindow.MainWindow.FromDocument: inherits XmlWindow.MainWindow.ParseXmlAndPopulateTree's gap, so a window over a document with a bad coordinate is not modelled.
- XmlWindow.MainWindow.ParseXmlAndPopulateTree: the `except` at visualize_xml.py:287-292, reached when `float()` raises part way through the net loop, keeps the partial tree and the partial `self.segments`; the model covers only an unreadable document (nothing parsed) and a fully readable one.
- XmlDraw.DrawSegments: the `gp_Dir` of a zero-length segment (visualize_xml.py:331-334) raises, which in the source ends the loop with the pending batch never registered and the dialog left open; the model draws every segment.
- XmlDraw.SegmentsDrawn: assumes, like XmlDraw.DrawSegments, that no segment has zero length.
- XmlWindow.MainWindow.DrawSegments: inherits XmlDraw.DrawSegments's gap for zero-length segments.
- Config.Group: `extensions` stands for the string `QSettings::value(...).toString()` returns. An unquoted value holding a comma is read by QSettings as a string list, which Qt 5 turns into ""; that reading is not modelled, and the value is taken as the text inside the quotes.
- Main.java's `main` method and the files `main.cpp`, `filehandlerinterface.h`, `process_xlsx.py`, `setup.py` and `build_nuitka.py` are not part of this model. They are plumbing, an empty interface, an I/O script and build scripts.

## Findings

The parse, the loader and the windows built on them follow the code as written; each corrected definition sits beside it with the intended property proved about it.

| source | as written | input that shows it | evidently intended | confidence | as-written member | corrected member |
|---|---|---|---|---|---|---|
| visualize_xlsx.py:362-379 | when a conversion raises, every column from the failing one on is read from `locals()`, which still holds the previous row's values | a first row with Section "A", then a row whose Xorigine does not convert and whose Section is "B": the second link is filed under "A" | each column takes its own row's value, or its default when its conversion raises | medium, not executed | XlsxRecords.LinksCarryOver | XlsxRecords.IntendedLinksAt |
| configmanager.cpp:54-56 | `split(",", SkipEmptyParts)` drops empty pieces before `trimmed()`, so a piece of white space becomes the extension "" | `extensions="stp, "` (quoted, so QSettings returns one string): the list is `["stp", ""]`, and "" is mapped to the type, so a file without a suffix is detected as that type | blank pieces are dropped after trimming: the list is `["stp"]` and no empty extension is mapped | medium, not executed | Config.BlankExtensionTyped | Config.NoTypeForEmptyExtension |
