# caminhos — a verified model of the visual depth-first search

`caminhos` is a small React editor for drawing a directed graph and
animating a depth-first search over it. The user creates labelled nodes,
ticks which existing nodes are the new node's parents and children, and
presses a button that runs a three-colour DFS in the CLRS style. The search
colours nodes white, gray and black, stamps discovery and finish times from
a shared counter `tempo`, and highlights the edge it is following.

This project models the logic of that component in Dafny:

- `wrappers.dfy`: module `Wrappers`, an `Option` type. `Option` stands for
  `undefined` from `Array.prototype.find` and for a missing parent id.
- `graph.dfy`: module `Graph`. It holds the node list and the lookup by id
  (`findNodeById`, `findIndex`). It holds `String.prototype.trim` with the
  whitespace set of ECMAScript. It holds the two checkbox toggles and
  `createNode`. `createNode` checks the label and builds the new node; the
  updater it hands to `setNodes` is the method `AddNode`, whose loop over
  the selected parents rewrites entries of a copied node list.
- `dfs.dfy`: module `Dfs`. It gives the meaning of `dfsVisit` and `startDFS`
  as pure functions over one run's state (`Run`): the colour record, the two
  timestamp records, `tempo`, the highlighted edge and the sequence of
  events the renderer sees. The module proves the traversal's properties:
  - the run invariant;
  - the clock accounting;
  - the nesting of intervals;
  - event order;
  - full coverage and termination on any graph, cyclic or not.
- `engine.dfy`: module `Engine`. Class `DfsEngine` holds the refs as
  mutable fields. Its methods `DfsVisit`, `VisitChildrenOf` and `StartDFS`
  update those fields step by step, as the component does. Each method is
  proved to leave the fields exactly as the matching `Dfs` function says.
  So every property proved in `Dfs` holds of the engine.

Termination of the recursive visit is proved with the set of white node ids
as the measure. Each call that does work turns one white node gray, and no
step ever makes a node white again.

## Model

| member | source | states |
|---|---|---|
| Graph.FindIndex | src/App.tsx:44 | The index is -1 exactly when no node has the id; otherwise it is the first node carrying the id. |
| Graph.FindNodeById | src/App.tsx:60 | A node is found exactly when the id occurs in the list; the node found is in the list and carries the id. |
| Graph.FindNodeByIdFirst | src/App.tsx:60 | `find` returns the first node carrying the id: if `nodes[i]` carries it and no earlier node does, the result is `nodes[i]`. |
| Graph.FindNodeByIdUnique | src/App.tsx:60 | With unique ids, the node found for `nodes[i].id` is `nodes[i]`. |
| Graph.UniqueIdsCount | src/App.tsx:34 | With unique ids there are as many distinct ids as nodes. |
| Graph.Trim | src/App.tsx:31-35 | The result is empty exactly when the label is all whitespace. Otherwise it neither starts nor ends with whitespace, and it is the infix left after whitespace-only prefix and suffix are cut. |
| Graph.TrimStart | src/App.tsx:35 | The result is a suffix of the input, the part dropped is all whitespace, and the result does not start with whitespace. |
| Graph.TrimEnd | src/App.tsx:35 | The result is a prefix of the input, the part dropped is all whitespace, and the result does not end with whitespace. |
| Graph.Remove | src/App.tsx:127 | The id is no longer present; every other id is present exactly when it was before; no duplicates are introduced; a list without the id is returned unchanged. |
| Graph.RemoveKeepsOthers | src/App.tsx:127 | `filter` keeps every other id exactly as many times as it occurred (the multiset of the result is that of the input with the id's count set to zero). |
| Graph.RemoveAppend | src/App.tsx:127 | `filter` works piecewise over a concatenation, so the ids it keeps stay in their original order. |
| Graph.Toggle | src/App.tsx:125-135 | The id is selected afterwards exactly when it was not before; other ids are unaffected; a duplicate-free selection stays duplicate-free. |
| Graph.ToggleTwice | src/App.tsx:125-135 | Ticking an unselected id and then unticking it restores the selection exactly. |
| Graph.ToggleOn | src/App.tsx:125-135 | Ticking an unselected id appends it at the end of the selection (`[...prev, id]`). |
| Graph.ToggleOff | src/App.tsx:125-135 | In a duplicate-free selection, unticking the id at position `i` gives the selection without position `i`, the rest in their original order. |
| Graph.CountNoDuplicates | src/App.tsx:43-51 | In a duplicate-free selection each id occurs at most once. |
| Graph.FindIndexAt | src/App.tsx:44 | In the list being built, whose first entries carry the existing unique ids, `findIndex` finds an existing node's id at that node's own position. |
| Graph.LinkStep | src/App.tsx:43-51 | One turn of the `parentIds.forEach`, with its `findIndex` lookup, appends the new id to the one parent it names (if any), keeping every other node as it was. |
| Graph.LinkedOnce | src/App.tsx:43-51 | With a duplicate-free parent selection, each existing node gains the new id exactly once if it was selected, and is otherwise unchanged. |
| Graph.AppendedIds | src/App.tsx:34-42 | Appending a node with a fresh id keeps the ids unique and adds only that id. |
| Graph.AddNode | src/App.tsx:41-53 | The updater handed to `setNodes`: the new node goes last, each existing node gains the new id once per time it was selected as parent (once if selected, with a duplicate-free selection) and is otherwise unchanged, and ids stay unique. |
| Graph.CreateNode | src/App.tsx:30-58 | A whitespace-only label leaves the list unchanged. Otherwise the list grows by one with the trimmed label and the selected children last, and every existing node gains the new id once per time it was selected as parent. With a duplicate-free selection that is once if selected and otherwise no change. Ids stay unique. |
| Dfs.AllWhite | src/App.tsx:103-106 | The reset colour record has exactly the node ids as keys, all white. |
| Dfs.Whites | src/App.tsx:68-70 | The ids recorded white; an id with no entry is not white (`undefined !== "white"`). Its meaning is used by the termination measure of Dfs.Visit and stated in Dfs.RecolorLeavesWhites. |
| Dfs.IsWhite | src/App.tsx:88 | The `nodeStatesRef.current[id] === "white"` test of the children loop and the sweep; an id with no entry is not white. Dfs.VisitFrame states that a node failing it is left alone. |
| Dfs.RecolorLeavesWhites | src/App.tsx:79 | Giving a node a non-white colour removes exactly that node from the white set. |
| Dfs.EdgeInto | src/App.tsx:73-77 | The edge highlighted on entry: `(parentId, id)` for a truthy parent id, none for a missing or empty one. Dfs.VisitEventOrder states that it is the first thing a visit publishes. |
| Dfs.Discover | src/App.tsx:73-81 | Entering a node: highlight the edge in, turn it gray, advance `tempo`, stamp its discovery with the new value. Dfs.DiscoverKeepsConsistent states what it keeps. |
| Dfs.Finish | src/App.tsx:93-99 | Leaving a node: turn it black, advance `tempo`, stamp its finish with the new value, clear the highlight. Dfs.FinishKeepsConsistent states what it keeps. |
| Dfs.Reset | src/App.tsx:103-111 | The state after the reset: every node white, no stamps, `tempo` 0, no highlight. Dfs.ResetConsistent states that it satisfies the run invariant. |
| Dfs.ResetConsistent | src/App.tsx:103-112 | The reset state satisfies the run invariant and its white set is exactly the node ids. |
| Dfs.Visit | src/App.tsx:62-100 | A visit never adds a white node (the termination measure). |
| Dfs.VisitChildren | src/App.tsx:86-91 | The children loop never adds a white node. |
| Dfs.Sweep | src/App.tsx:118-122 | The root sweep never adds a white node. |
| Dfs.VisitFirst | src/App.tsx:103-116 | The reset followed by the visit of `nodes[0]` as a root, when there is one. Dfs.VisitFirstConsistent states what holds after it. |
| Dfs.StartDfs | src/App.tsx:102-123 | The whole of `startDFS`: reset, visit `nodes[0]`, then sweep every node still white in list order. Its meaning is stated by Dfs.StartDfsFinishesEveryNode, Dfs.StartDfsIntervalsNestOrAreDisjoint, Dfs.StartDfsTempo and Dfs.StartDfsKeepsRun. |
| Dfs.VisitFrame | src/App.tsx:66-100 | A missing node, or one not recorded white, leaves the whole run state unchanged. Otherwise colours of non-white nodes are kept, no white node ends gray, the event trace only grows, the node ends black and no edge is highlighted. |
| Dfs.VisitChildrenFrame | src/App.tsx:86-91 | The children loop keeps the colour keys and the colours of non-white nodes, ends no node gray and only extends the event trace. |
| Dfs.SweepFrame | src/App.tsx:118-122 | After the sweep from position `i`, no node at position `i` or later is white, and the run was only extended. |
| Dfs.ChildStep | src/App.tsx:86-91 | One turn of the children loop (look the id up, visit it if it names a white node) advances the loop's specification by one child. |
| Dfs.SweepStep | src/App.tsx:118-122 | One turn of the sweep advances its specification by one node. |
| Dfs.DiscoverKeepsConsistent | src/App.tsx:79-81 | Discovering a white node keeps the run invariant and all existing stamps; `tempo` rises by exactly one, and that value is the node's discovery time. |
| Dfs.FinishKeepsConsistent | src/App.tsx:93-95 | Finishing a gray node, once everything discovered after it is finished, keeps the invariant and the stamps; `tempo` rises by exactly one, and that value is the node's finish time. |
| Dfs.VisitKeepsConsistent | src/App.tsx:62-100 | A visit keeps the run invariant (colours match stamps, stamps in 1..tempo, discovery before finish, all stamps distinct, intervals nest) and never rewrites a stamp. Every node it discovers is stamped with discovery and finish inside the visit. |
| Dfs.VisitChildrenKeepsConsistent | src/App.tsx:86-91 | The children loop keeps the same invariant and stamp facts. |
| Dfs.VisitCountsTempo | src/App.tsx:80-94 | A visit advances `tempo` by exactly two for every node it discovers. |
| Dfs.VisitChildrenCountsTempo | src/App.tsx:86-91 | The children loop advances `tempo` by exactly two per node discovered. |
| Dfs.VisitEventOrder | src/App.tsx:73-99 | A visit that enters a node first publishes the highlight of the incoming edge (none without a truthy parent id) and the discovery. It publishes last the finish and the cleared highlight, with all descendants' events in between. |
| Dfs.VisitBracketsDescendants | src/App.tsx:79-95 | A visit stamps its node with discovery `tempo + 1` and finish equal to the final `tempo`. Every node discovered inside it satisfies disc(node) < disc(d) < fin(d) < fin(node). Conversely, a node whose discovery falls between disc(node) and fin(node) was white before the visit and was discovered by it. So an interval nests inside another exactly when its node was discovered during that visit, and nodes in unrelated subtrees have disjoint intervals. |
| Dfs.VisitExploresChildren | src/App.tsx:86-91 | When a visit ends, every child id that names a node with a recorded colour is no longer white. |
| Dfs.SweepKeepsRun | src/App.tsx:118-122 | The sweep keeps the invariant and leaves no node gray. `tempo` rises by two per node it discovers, and an unset highlight stays unset. |
| Dfs.VisitFirstConsistent | src/App.tsx:114-116 | After the reset and the visit of `nodes[0]`, the invariant holds, no node is gray and no edge is highlighted. |
| Dfs.StartDfsKeepsRun | src/App.tsx:102-123 | A full run ends with the invariant, no gray node and no highlight; `tempo` is twice the number of ids that left white. |
| Dfs.StartDfsLeavesNoWhite | src/App.tsx:102-123 | After a full run the colour record has exactly the node ids as keys and none is white. |
| Dfs.AllBlackWhenDone | src/App.tsx:93-95 | With no white and no gray node, every node is black and has both stamps. |
| Dfs.StartDfsFinishesEveryNode | src/App.tsx:102-123 | On any graph, cyclic or with dangling child ids, `startDFS` ends with every node black and every id stamped with discovery and finish. The invariant holds, `tempo` is twice the number of ids and nothing is highlighted. |
| Dfs.StartDfsTempo | src/App.tsx:80-110 | With unique ids, a full run leaves `tempo` at twice the number of nodes. |
| Dfs.FinishedIntervalsNestOrAreDisjoint | src/App.tsx:81-95 | When every discovered node is finished, any two nodes' intervals are disjoint or one lies strictly inside the other. |
| Dfs.StartDfsIntervalsNestOrAreDisjoint | src/App.tsx:102-123 | The parenthesis theorem for a full run: any two nodes' [discovery, finish] intervals are disjoint or strictly nested. |
| Engine.DfsEngine.constructor | src/App.tsx:20-28 | The refs start as empty records, `tempo` 0 and no highlight, which satisfies the run invariant. |
| Engine.DfsEngine.DfsVisit | src/App.tsx:62-100 | The fields after `dfsVisit` are exactly `Dfs.Visit` of the fields before, and a visit started in a state satisfying the run invariant ends in one. |
| Engine.DfsEngine.Enter | src/App.tsx:73-81 | Entering sets the highlight, turns the node gray, increments `tempo` and stamps the discovery, exactly as `Dfs.Discover`. |
| Engine.DfsEngine.VisitChildrenOf | src/App.tsx:86-91 | The fields after the children loop are exactly `Dfs.VisitChildren` of the fields before, and the loop keeps the run invariant. |
| Engine.DfsEngine.Leave | src/App.tsx:93-99 | Leaving turns the node black, increments `tempo`, stamps the finish and clears the highlight, exactly as `Dfs.Finish`. |
| Engine.DfsEngine.ResetRun | src/App.tsx:103-111 | The reset builds a colour record with every node white, clears both stamp records, zeroes `tempo` and clears the highlight, exactly as `Dfs.Reset`. |
| Engine.DfsEngine.VisitRemaining | src/App.tsx:118-122 | The fields after the sweep are exactly `Dfs.Sweep` from position 0 of the fields before. |
| Engine.DfsEngine.StartDFS | src/App.tsx:102-123 | The fields after `startDFS` are exactly `Dfs.StartDfs(nodes)`, whatever they were before, and satisfy the run invariant. |

## Left out

- The `setTimeout` pauses after discovery and after finish (src/App.tsx:84, 98) are not modelled. They only pass time and change no state the traversal reads.
- React plumbing is not modelled:
  - `useState`, `useRef`;
  - the `setRenderTimes` re-render counter;
  - the resets of the form fields after `createNode` (`setNewValue`, `setParentIds`, `setChildIds`).
  The refs and the highlighted edge are plain fields; renders are the ghost event trace.
- Two `startDFS` runs in flight at once are not modelled. The model runs one traversal at a time to completion.
- The engine takes the node list as a constant. This matches the `nodes` array captured by the render that started the run; edits made during an animation are not modelled.
- UUID generation (src/App.tsx:34) is a `freshId` parameter, required to be distinct from every existing id and from the selected parent ids.
- The random screen coordinates (src/App.tsx:37-38) are not modelled; they are floating point and affect layout only.
- The JSX/SVG rendering and `getColorByState` (src/App.tsx:137-267) are not modelled.
- `tempo` is an unbounded integer. JavaScript numbers lose integer precision beyond 2^53, which no realistic graph reaches.
- Graph.CreateNode: requires unique existing ids and a fresh id. The source relies on UUIDs for this and does not check it.
- Graph.AddNode: requires the same unique existing ids and fresh id as Graph.CreateNode, for the same reason.
- Dfs.Visit: its own contract states only the termination measure. The frame, invariant, clock and ordering facts are in the lemmas listed above.
- Dfs.VisitChildren: likewise; see Dfs.VisitChildrenFrame, Dfs.VisitChildrenKeepsConsistent and Dfs.VisitChildrenCountsTempo.
- Dfs.Sweep: likewise; see Dfs.SweepFrame and Dfs.SweepKeepsRun.
- The model records that a node id with no entry in the colour record is not white. This is JavaScript's `undefined !== "white"`: such a node is never entered.
