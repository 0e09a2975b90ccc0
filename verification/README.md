# Unused-node analysis of a material node editor, in Dafny

This project models the core of a node-editor add-on that finds the nodes of a
material's node tree that contribute nothing to an output. From that analysis
it deletes them, groups them in a frame, or reports them. The model covers:

- **Used set.** A node is used when links, followed in either direction,
  connect it to an output node. The used set is defined as a least fixpoint
  (`Reachability.UsedNodes`). The add-on's depth-first visit is proved to
  compute exactly that set.
- **Unused search.** The flat search returns every node of a tree outside
  the used set. Attribute nodes are hidden on request. A tree without
  an output node yields nothing. The recursive search also descends into the
  payload tree of every unused group node, under a dotted containment path.
- **Group usage.** For each unused group node, the materials whose tree
  instantiates the same payload tree are recorded. So are those among them
  whose first such instance has a linked output.
- **Delete operators.** These cover the active tree and every material.
  Each removes the reported nodes. Both are cancelled when a reported node
  belongs to a nested group tree, since the host cannot remove such a node
  from the searched tree.
- **Grouping operators.** These also cover the active tree and every
  material. Each run first removes the previous run's `UNUSED_FRAME` frame
  and its `_tmp_attr` helper nodes. It then searches again. Each unused node
  gets a helper attribute node on its first free input, linked from the
  requested channel. All of these nodes are then laid out on a grid,
  shifted 400 units left of the nodes still in use, and framed.
- **Layout.** The grid layout sorts nodes top to bottom and left to right.
  Column widths are per-column maxima and row heights are per-row maxima.
  Helpers are put 150 units left of their targets. The placement of a block
  left of the used nodes is included.
- **Report and popup.** The text report lists every unused node with its
  usage, and the popup reads the two counts back from the text.

Data are immutable values:

- A library maps tree ids to trees.
- A tree holds nodes by id, its collection order and a set of links
  between numbered sockets.
- A node reference is a (tree id, node id) pair. It plays the part of the
  host object used as a dictionary key.

Coordinates are `real`. The recursion into payload trees terminates through
a rank map that the caller supplies (`Ranked`): a group's payload tree
always ranks lower than the tree holding the group.

The source iterates over hash maps and sets whose order it does not fix.
Such iterations are written as methods that pick any remaining element.
Their contracts hold for every order: the deletion loop, the helper loop
of the grouping, and the report's listing of keys.

## Model

| member | source | states |
|---|---|---|
| Reachability.TraverseFromOutputs | utils.py:69-94 | The depth-first visit from every output node, following input links to their source and output links to their target, returns exactly the used set: no more and no fewer nodes. |
| Reachability.OutputList | utils.py:43-63 | The output list holds exactly the listed ids that are nodes of the tree with an output type, and holds each once when the order lists each once. |
| Reachability.OutputListExact | utils.py:43-63 | Taken in a well-formed tree's own node order, the output list names exactly the output nodes, each once, so it is as long as that set. |
| Reachability.UsedNodes | utils.py:69-94 | The used set holds every output node and is closed under links in both directions. |
| Reachability.UsedNodesLeastClosed | utils.py:80-92 | The used set contains every output node and is closed under links in both directions. It lies inside every such closed set, so it is the least one. In a well-formed tree it holds only nodes of the tree. |
| Reachability.NoOutputsNoneUsed | utils.py:91-94 | A tree without output nodes has no used node. |
| Reachability.UsedIffConnected | utils.py:80-89 | A node is used exactly when some walk along links, in either direction, joins it to an output node. |
| Graph.RemoveNodes | operators.py:233-234 | Removing a set of nodes keeps exactly the other nodes and keeps only the links between them. A well-formed tree stays well-formed. |
| Graph.RemoveNodesTwice | operators.py:233-234 | Removing one set of nodes and then another is the same as removing their union at once. |
| Unused.FindUnusedNodes | utils.py:100-144 | A missing tree, or one without an output node, gives the empty map. Every key is a node of the searched tree. Its record carries the node's type, empty material lists, and the parent path (or the tree's name when the path is empty). |
| Unused.FindUnusedKeys | utils.py:123-130 | For a tree with an output node, a node is reported exactly when it is unused and is either not an attribute node or attributes are shown. |
| Unused.UnusedIffNotConnected | utils.py:123-130 | With attributes shown, a node of a well-formed tree is reported exactly when no walk joins it to an output node. |
| Unused.UnusedPartition | utils.py:123-124 | Reported and used nodes partition the nodes of a tree with an output node. |
| Unused.FlatKeysAnyPath | utils.py:133-142 | The reported nodes do not depend on the parent path. The path only labels the records. |
| Unused.UnusedGroupsAnyPath | utils.py:193-194 | The recursion descends exactly into the reported group nodes that have a payload tree. |
| Unused.FindUnusedNodesRecursive | utils.py:175-204 | The keys are exactly the tree's own unused nodes plus, recursively, those of the payload trees of its unused group nodes. Own-tree records are those of the flat search. Every record is one that some iteration order of the source could leave. |
| Unused.OwnKeys | utils.py:190-202 | A key of the searched tree in the recursive result comes from the flat search of that tree. The nested updates never add own-tree keys. |
| Unused.RecursiveKeysRank | utils.py:193-202 | Every key of the recursive result belongs to a tree ranked no higher than the searched one. |
| Unused.PossibleRecordShape | utils.py:133-142 | Every record of the recursive result describes an existing node and carries its type and empty material lists. |
| GroupUsage.GroupConnected | utils.py:334-358 | A group node counts as connected exactly when one of its output sockets is linked. |
| GroupUsage.FirstInstance | utils.py:158-165 | The instance found is the first node in the tree's order that instantiates the payload. None is found exactly when no node does. |
| GroupUsage.CollectGroupUsage | utils.py:147-172 | The annotation adds no key and removes none. |
| GroupUsage.CollectGroupUsageSpec | utils.py:147-172 | Records that are not group nodes with a payload are unchanged. For a group record that starts empty, a material is listed exactly when its tree instantiates the payload. It is listed as connected exactly when the first instance that decides for that material name has a linked output. |
| GroupUsage.RecordUsageMaterials | utils.py:158-165 | A name ends in the material list exactly when it was there already or some material of that name in the list instantiates the payload. |
| GroupUsage.RecordUsageConnected | utils.py:167-172 | The connected list is decided once per material name, by the first material of that name that instantiates the payload. |
| GroupUsage.RecordUsageLater | utils.py:164 | A material already listed is never re-examined. |
| Cleanup.TmpAttributeIds | utils.py:215-219 | The helper set is exactly the nodes of attribute type labelled `_tmp_attr`. |
| Cleanup.RemoveTmpAttributeNodes | utils.py:207-223 | Exactly the non-helper nodes remain, and only the links between them. A well-formed tree stays well-formed. |
| Cleanup.RemoveTmpAttributeNodesIdempotent | utils.py:207-223 | No helper is left, so a second pass changes nothing. |
| Cleanup.FirstUnusedFrame | operators.py:602-606 | The frame found is the first frame named `UNUSED_FRAME` in collection order. None is found exactly when no such frame exists. |
| Cleanup.FirstUnusedFrameAppended | operators.py:602-606 | A frame appended to a tree that had none is the one found. |
| Cleanup.RemoveExistingUnusedFrame | operators.py:596-609 | Without such a frame the tree is unchanged. Otherwise exactly the first such frame is removed. |
| Cleanup.RemoveExistingUnusedFrameCount | operators.py:596-609 | The node count drops by one exactly when the tree had an `UNUSED_FRAME` frame. |
| Attribute.FirstFreeInput | operators.py:633-645 | The socket chosen is the first unlinked input. There is none exactly when every input is linked, including when the node has no inputs. |
| Attribute.AttributeIdName | operators.py:648-653 | Geometry trees get the named-attribute node type. Every other tree kind gets the shader attribute node type. |
| Attribute.HelperNode | operators.py:648-661 | The helper is named `Attr_` plus the target's name, is labelled `_tmp_attr` and carries the attribute text. It has an attribute type exactly when it is a shader attribute node. |
| Attribute.ChannelOutput | operators.py:664-674 | The output used is the first one named after the channel, or the first output when none is. There is none exactly when the helper has no outputs. |
| Attribute.AddAttributeNode | operators.py:619-678 | A helper is added exactly when the target has a free input. The tree is otherwise unchanged and the new id is fresh. |
| Attribute.AddAttributeNodeLinks | operators.py:663-676 | A helper with outputs gets exactly one new link, from its channel output to the target's first free input. A helper without outputs gets none. |
| Attribute.AddAttributeNodeRemoved | operators.py:619-678 | Adding a helper and then running the helper clean-up gives back the original nodes and links. |
| Attribute.HelperNamesTarget | utils.py:246 | Removing the `Attr_` prefix from a helper's name gives back its target's name, when that name has no such prefix. |
| Layout.LayoutNodesGrid | utils.py:226-281 | Only the given nodes move, and nothing moves when there are no regular nodes. |
| Layout.GridOrderSpec | utils.py:253-254 | The grid order is a permutation of the regular nodes. It is sorted by y descending and then x ascending, and equal keys keep their input order. |
| Layout.GridOrderNoDup | utils.py:254 | Sorting distinct nodes gives distinct nodes. |
| Layout.LayoutCells | utils.py:255-276 | The k-th node of the grid order lands on the top-left corner of cell k of the row-major grid. |
| Layout.ColumnWidth | utils.py:255-266 | A column's width is the largest width in that column, or 0 for an empty column. |
| Layout.RowHeight | utils.py:256-267 | A row's height is the largest height in that row, or 0 for an empty row. |
| Layout.FirstCellAtOrigin | utils.py:269-276 | The first cell sits at the regular nodes' former left-most x and top-most y. |
| Layout.CellsSeparated | utils.py:272-276 | A later column starts at least a gap right of an earlier cell's right edge, and a later row likewise below. Cells in one column share x and cells in one row share y. |
| Layout.CellsDisjoint | utils.py:272-276 | No two cells overlap when the gaps are not negative. |
| Layout.LayoutHelper | utils.py:243-250 | A helper whose target is among the regular nodes ends 150 units left of the target's new location, at the same height. A helper without a target stays put. |
| Ordering.SortedPositionsSpec | utils.py:254 | The sort returns each position exactly once and orders them by y descending, then x ascending, then input position. |
| Ordering.SortSorted | utils.py:254 | Insertion sort of distinct positions is sorted under that order. |
| Placement.PlaceGroupLeftOfUsed | utils.py:287-325 | An empty group gives no frame and no change. Otherwise exactly one fresh frame node is added at the end of the collection, and the links stay the same. |
| Placement.PlaceGroupMoves | utils.py:303-311 | Each group node ends at its grid location shifted by one common horizontal offset and is parented to the frame. |
| Placement.PlaceGroupMargin | utils.py:305-311 | The right-most group node ends exactly the margin left of the left-most used node, or of x = 0 when no node is used. |
| Placement.PlaceGroupFrame | utils.py:313-320 | The frame has width 0 and sits 40 units left of and above the group's top-left corner. |
| Placement.PlaceGroupParent | utils.py:322-323 | Every group node is parented to the new frame. |
| Placement.PlaceGroupOthers | utils.py:287-325 | A node outside the group is left exactly as it was. |
| Placement.PlaceGroupKeeps | utils.py:306-323 | Only location and parent change. Kind, name, sockets and payload are kept. |
| Placement.ShiftXAt | utils.py:310-311 | A shift moves each listed node right by the offset and leaves its y alone. |
| Grouping.GroupedNodes | operators.py:691-695 | The nodes to lay out are exactly the targets and the created helpers. |
| Grouping.UsedList | operators.py:698 | The used list is exactly the nodes in collection order that are neither grouped nor frames. |
| Grouping.CreateUnusedFrame | operators.py:680-705 | No pairs gives no change and no frame. Otherwise one fresh frame named `UNUSED_FRAME` and labelled `UNUSED` is appended, and the links stay the same. |
| Grouping.CreateUnusedFrameNodes | operators.py:680-705 | Every grouped node is put in the frame and every other node is kept as it was. |
| Grouping.CreateUnusedFrameMargin | operators.py:701 | The grouped nodes end 400 units left of the nodes still in use. |
| Grouping.CreateUnusedFrameFrame | operators.py:701-705 | The frame is named, labelled and placed around the grouped nodes' top-left corner. |
| Grouping.CreateUnusedFrameFoundNext | operators.py:703-705 | The next run's clean-up finds this frame, and removing it restores the node set. |
| Grouping.Prepared | operators.py:719-723 | The prepared tree has no helper nodes, no new nodes and the original payloads. |
| Grouping.AddHelpers | operators.py:731-734 | One pair is made per unused node. Each helper is new and is built for its target. The targets' own nodes stay as they were. The tree's links are the prepared tree's links plus, for each helper with outputs, one link from its channel output to its target's first free input in the prepared tree, and no other. |
| Grouping.HelperLinksSpec | operators.py:663-676 | A link is among those the helpers add exactly when it is the channel-output-to-first-free-input link of one pair's helper. |
| Grouping.ProcessNodeTree | operators.py:707-739 | The run fails exactly when the search reports a node of a nested tree. It finds something exactly when the search is non-empty. The pairs target exactly the searched tree's own reported nodes, none of them used, and the staged tree is the prepared tree with their helpers added and each helper linked to its target's first free input, with every other link kept. A failed run leaves that staged tree without a frame. An empty search leaves the prepared tree. Otherwise the staged tree is framed. Payloads and well-formedness are kept. |
| Grouping.GroupActive | operators.py:750-778 | No active tree, or an unknown one, gives no outcome. Otherwise the active tree is processed exactly as ProcessNodeTree states, a failure included. |
| Grouping.GroupMaterial | operators.py:805-809 | A material without nodes or a tree is skipped and the library is unchanged. Otherwise only its tree is replaced, by the tree ProcessNodeTree leaves, a failed one included. Ranking and well-formedness are kept. |
| Grouping.GroupAllMaterials | operators.py:789-821 | The run is a sequence of GroupMaterial steps, one per material in order, each starting from the library the previous one left. It stops at the first failure and keeps the library as it stands then. A finished run has visited every material. It counts exactly the materials with nodes and a tree, and exactly the steps that found something. Trees no material uses are untouched. |
| Deletion.RemoveFound | operators.py:233-234 | The removal loop removes exactly the own-tree keys. It completes exactly when no key belongs to a nested tree. |
| Deletion.DeleteInTree | operators.py:227-236 | The tree loses exactly its unused nodes. The run is interrupted exactly when a nested key is reported. The count is the number of keys, and no keys means no change. |
| Deletion.DeleteUnusedNodes | operators.py:213-243 | No active tree gives no change. Otherwise the active tree is processed as in DeleteInTree. |
| Deletion.UsedAfterRemoval | operators.py:233-234 | Removing unused nodes changes neither the output nodes nor the used set. |
| Deletion.DeletedNotUsed | operators.py:227-234 | No removed node is used. |
| Deletion.AllUsedLeft | operators.py:227-234 | In a tree with an output node, every node left after the removal is used. |
| Deletion.DeleteIdempotent | operators.py:227-234 | A second search after a delete run finds nothing, not even in nested groups. |
| Deletion.CleanNoKeys | utils.py:175-204 | A tree is clean exactly when the recursive search reports nothing. |
| Deletion.DeleteMaterial | operators.py:267-273 | A material with nodes and a tree has that tree cleaned and every other tree kept. The count is the number of keys when the step completes, and 0 when a nested key interrupts it. For a step that completes, the library changes exactly when the count is not 0. |
| Deletion.DeleteAllUnusedNodes | operators.py:253-285 | The sweep is a sequence of DeleteMaterial steps, one per material in order, each starting from the library the previous one left. Each step removes exactly the unused nodes its search reports. The sweep halts at the first step whose search reports a nested node, keeping the library as it stands then. A completed sweep counts the materials with nodes and a tree. Its deleted total is the sum of each step's key count. It has cleaned every visited tree, and it deleted nothing exactly when the library is unchanged. |
| Report.EntryLines | operators.py:118-132 | Each entry starts with its bracketed line. A group used by some material gets exactly two more lines, and every other node gets none. |
| Report.EntryLine | operators.py:119 | A node line opens with `[`, and its brackets enclose the path of the tree holding the node, with the node's name following. |
| Report.ReportLines | operators.py:106-136 | The bracketed lines of the report are exactly the entry lines, one per unused node, in listing order. |
| Report.NoMaterialsLines | operators.py:68-75 | The report for no materials lists no node. |
| Report.ParseLine | operators.py:327-338 | The material marker takes precedence over every other phrase and leaves the unused count alone. Only the material and "no materials" phrases change the material count. A count once read is never lost, and a line with none of the phrases changes nothing. |
| Report.ParseStats | operators.py:324-338 | Text without a line break is read as that one line. |
| Report.ParseReport | operators.py:324-338 | The popup parser, run on the joined report, reads back the material count and the number of unused nodes. |
| Report.ParseNoMaterialsReport | operators.py:324-338 | The popup parser reads 0 materials and 0 unused nodes from the no-materials report. |
| Report.ParseMaterialsLine | operators.py:328-329 | The material-count line yields its count, stripped. |
| Report.ParseTotalLine | operators.py:330-331 | The total line yields its count, stripped. |
| Report.ParseAllUsedLine | operators.py:334-335 | The all-used line yields 0 unused nodes. |
| Report.ParseNoMaterialsLine | operators.py:336-338 | The no-materials line yields 0 of both. |
| Report.ParseLinesAppend | operators.py:327-338 | Parsing a report in two parts is the same as parsing it whole: the second part starts from the counts the first part left. |
| Report.PopupLabels | operators.py:341-350 | The popup shows a title, a material label when that count was read, and an unused label when that count was read, in that order. |
| Report.LastSourceMerged | operators.py:96-100 | A key is in the merged map exactly when some material's search reported it. |
| Report.LastSourceIsLast | operators.py:96-100 | No later material's search reports a key whose record comes from an earlier one. |
| Report.MergeMaterials | operators.py:93-100 | The merged map holds the union of the materials' searches. Each record comes from the last material whose search reported the key, and is one that search could produce. |
| Report.ListKeys | operators.py:118 | The listing visits every merged key exactly once. |
| Report.BuildReport | operators.py:56-136 | No usable material gives the no-materials report. Otherwise the report is the header with the usable count, one entry per annotated key, and the total. |
| Report.MergedRecords | operators.py:96-103 | Every annotated record names an existing node of its type. A group record lists exactly the materials instantiating its payload, and as connected exactly those whose deciding first instance has a linked output. Other records list nothing. |
| Text.SplitJoin | operators.py:138 | Splitting the joined lines on the separator gives the lines back when none contains it. |
| Text.NatToStringValue | operators.py:134 | The decimal rendering of a count denotes that count. |
| Text.NatToStringInjective | operators.py:134 | Different counts render differently. |
| Text.Split | operators.py:324 | The pieces contain no separator, and joining them with it gives the text back. |
| Text.Strip | operators.py:329 | The result is a part of the text with only blanks before and after it, and it neither starts nor ends with a blank. |
| Text.NatToString | operators.py:134 | The rendering is at least one decimal digit. It is `0` exactly for 0, and it has no leading zero otherwise. |
| Text.StripBlanks | operators.py:329 | Stripping removes leading blanks and keeps a word without surrounding blanks. |
| Text.RemoveAll | utils.py:246 | Removing every occurrence of a pattern never lengthens the text. A text without the pattern is unchanged, and a text with it gets shorter by at least the pattern's length. |

## Left out

- File output is not modelled. This covers the text block, the file under the user's scripts directory, the console print and the logger: these are I/O.
- The timestamp is a parameter of the report, because the clock is I/O.
- Operator registration, the UI panel and the popup's button are not modelled. The popup's drawing is reduced to the list of label texts.
- The `try`/`except` blocks of the operators are not modelled as such. The one error the model can name is a removal, link or parenting of a node of a nested group tree. It is modelled as a cancelled or interrupted outcome. Other host exceptions are not modelled.
- `validate_node_tree` becomes an optional active tree id. A missing or unknown tree cancels the operator.
- Node widths and heights use the values the host reports through `getattr`. Their defaults of 100 are not modelled.
- Floating-point rounding is not modelled, because coordinates are `real`.
- The host's automatic resizing of frames and its choice of names for new nodes are not modelled. A new frame's name is a parameter, and the grouping renames the frame as the source does.
- A new helper's sockets come from a host template function parameter, because they are defined by the host.
- Text.Strip: only ASCII whitespace counts as blank. Unicode spaces are not modelled, and the report's own counts never contain them.
- Layout.LayoutNodesGrid: requires `cols > 0` when there are regular nodes, where the source would fail with a modulo by zero. The grouping always passes 6.
- Layout.LayoutCells, Layout.LayoutHelper, Placement.PlaceGroupMoves and Placement.PlaceGroupMargin: require the listed nodes to be distinct. Python objects in a list are distinct in every call the add-on makes.
- Unused.FindUnusedNodesRecursive: the recursion's termination rests on a caller-supplied rank map. A library in which a group contains itself is not modelled.
- Report.ParseReport: requires that the created line and the node lines contain none of the phrases the parser looks for. A node or tree name containing such a phrase would change what the popup reads.
- Report.ListKeys: the listing order of the merged dictionary is not fixed. Any order of the keys is allowed.
- Grouping.ProcessNodeTree: a failed run's staged tree lacks the one extra helper the host creates for the first nested target before refusing the cross-tree link. When that nested target has no free input, the host attempts no link, and whether the run fails then depends on how the host treats parenting another tree's node to the frame. The model fails at the first nested key in both cases.
- Reachability.TraverseFromOutputs: the source's visit recurses once per node along a path, so a chain deeper than the host's recursion limit raises `RecursionError`, which every operator turns into a cancellation. The worklist model has no depth limit and never fails.
- Grouping.GroupActive: the report message of the operator is not modelled, only the outcome it reports on.
- The `ui.py` panel and the add-on's registration in `__init__.py` are not part of this model.
