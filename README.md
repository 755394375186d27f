# Multi-floor indoor navigation engine — Dafny model

This project models the navigation core of `script.js`: the `MultiFloorGraph`
building graph and the per-floor `Graph`.

A floor's SVG drawing is turned into an undirected walkway graph:
- Every `<line>` whose stroke is not red is a walkway.
- Its endpoints are merged into nodes `N1`, `N2`, … whenever they lie within
  the tolerance of 5 of an already registered point.
- Red lines and red non-blank paths become walls.
- A non-red `<text>` label names the nearest leaf node within radius 10.

Nodes whose name starts with `L` are stairs. When a floor is added:
- Each stair is checked against the position first recorded for its name. A
  mismatch throws.
- Each stair is then indexed under its name and the floor, in the stair
  connections.

Route search is a breadth-first search over the layered graph. A location is
a floor and a node. Its moves are the node's neighbours on the same floor,
followed by the same-named stair on every other floor. The result is the path
of locations and the list of stairs taken.

Modules:

- `Wrappers`: `Option`.
- `OrderedMaps`: JavaScript's insertion-ordered `Map`, as keys plus a map.
- `Geometry`: points, the tolerance and the label radius.
- `JsText`: `trim`, ASCII `toLowerCase`, case-insensitive spelling and `startsWith`.
- `Drawing`: the SVG elements the builder reads and the walls it records.
- `FloorGraph`: node and edge records, and the `Graph` class (`addNode`, `addEdge`).
- `FloorBuilder`: `registerPoint`, `findPointId` and `parseLinesToGraph`, the
  reference fold of the line loop, and the specification of the graph they build.
- `Stairs`: `extractStairs`, plus the pure meaning of `validateStairs` and of
  `updateStairConnections`.
- `Floors`: the floor records, and the specifications of `getAllNodes` and `getStartNode`.
- `Search`: the layered graph, paths, and the invariant of the breadth-first search.
- `MultiFloor`: the `MultiFloorGraph` class, whose methods are proved against
  the functions above.

A failed stair check is not rolled back. `validateStairs` records each new
stair name in `stairCoordinates` as it goes (`script.js:104-106`) and returns
at the first mismatch (`script.js:108-110`). The records it made before the
mismatch stay after the error. `MultiFloor.MultiFloorGraph.AddFloor` and
`Stairs.CheckStairsStops` state exactly what remains.

The `<line>` loop of `parseLinesToGraph` has a reference definition,
`FloorBuilder.LinesFold`: one `LineStep` per line, each made of the `Register`
steps for the two endpoints and the `JoinEnds` step. The imperative loop is
proved equal to it, state for state.

## Model

| member | source | states |
|---|---|---|
| OrderedMaps.OrderedMap.Put | script.js:248 | `Map.set`: the key maps to the value and other keys are unchanged; an existing key keeps its position and a new key is appended |
| FloorGraph.Graph.constructor | script.js:242-245 | a new graph has no nodes and no edges |
| FloorGraph.Graph.AddNode | script.js:247-249 | the node is stored with its coordinates, no edges and no name, in insertion order; adding a fresh id keeps the graph well formed |
| FloorGraph.Graph.AddEdge | script.js:251-257 | for distinct ends: one edge record is appended, and each end's adjacency list gains the other end; for equal ends nothing changes; no other node changes; positions and names are kept; the graph stays well formed |
| FloorGraph.Link | script.js:254-255 | `b` is appended to `a`'s adjacency list and `a` to `b`'s; every other node and the key order are unchanged |
| FloorGraph.LinkWellFormed | script.js:251-257 | linking two distinct nodes and recording the edge keeps the graph well formed |
| FloorGraph.LinkCount | script.js:253-255 | after linking, each adjacency list holds each node exactly as often as the edge list joins the two |
| FloorGraph.Graph.SetName | script.js:94-96 | only the chosen node's name changes; edges are kept |
| FloorGraph.EdgeCountAppend | script.js:253 | appending an edge record adds one to the count of edges joining its two ends, and nothing to other pairs |
| FloorGraph.EdgeCountSymmetric | script.js:251-257 | the number of edges joining a and b equals the number joining b and a |
| FloorGraph.EdgeCountSelf | script.js:252 | without self-loop records, no edge joins a node to itself |
| FloorGraph.EdgeCountUntouched | script.js:253-255 | a node that no edge record mentions is joined to nothing |
| FloorGraph.AdjacencySymmetric | script.js:251-257 | in a well-formed graph, b occurs in a's adjacency list exactly as often as a occurs in b's |
| FloorGraph.NoSelfLoops | script.js:252 | in a well-formed graph no node is its own neighbour |
| JsText.TrimStartFacts | script.js:65 | leading whitespace is dropped: the result is a suffix, everything dropped is whitespace, and the result does not start with whitespace |
| JsText.TrimEndFacts | script.js:65 | trailing whitespace is dropped: the result is a prefix, everything dropped is whitespace, and the result does not end with whitespace |
| JsText.TrimIsSlice | script.js:81 | `trim()` returns a slice of its input with no whitespace at either end |
| JsText.TrimEmptyIffBlank | script.js:65 | `d.trim()` is empty exactly when `d` is all whitespace |
| JsText.Trim | script.js:81 | `trim()` (also line 65): leading, then trailing whitespace dropped; `TrimIsSlice`, `TrimStartFacts`, `TrimEndFacts` and `TrimEmptyIffBlank` state what it keeps |
| JsText.AsciiLowerSpells | script.js:45 | lower-casing gives a word without capitals exactly when the input spells that word letter by letter, each letter in either case |
| Drawing.IsRed | script.js:45-47 | the reserved colour, tested the same way at lines 62-63 and 73-74: the attribute is present and lower-cases to `red` or `#ff0000` |
| Drawing.IsRedSpelled | script.js:45 | an attribute is red exactly when it is present and spells `red` or `#ff0000` in any mix of upper and lower case |
| Drawing.LineWallsMembers | script.js:45-48 | a line wall is exactly the coordinates of a red line |
| Drawing.PathWallsMembers | script.js:60-69 | a path wall is exactly the `d` of a red path whose `d` is not blank |
| Drawing.LineWallsCount | script.js:39-57 | every line is either a wall or walkable, never both |
| Drawing.RedLabelsMembers | script.js:21-27 | the labels kept in the stored drawing are exactly the red ones |
| Drawing.RedLabelsAppend | script.js:21-27 | filtering labels distributes over concatenation |
| FloorBuilder.FirstMatch | script.js:134-142 | the index of the first registered point within tolerance; the length exactly when there is none |
| FloorBuilder.PointIdOf | script.js:134-142 | no id exactly when no registered point is within tolerance; otherwise the id stored for the first such point |
| FloorBuilder.FindPointId | script.js:134-142 | returns nothing exactly when no registered point is within tolerance; otherwise returns the id of the first such point in registration order; the result is `PointIdOf` |
| FloorBuilder.AddPoint | script.js:126-131 | a point with no match is appended to the points as `N(size+1)` and added as that node; edges are unchanged and points and nodes stay in step |
| FloorBuilder.Register | script.js:116-132 | the state is unchanged exactly when the point has a match; otherwise the point is appended to the registered points; edges are unchanged |
| FloorBuilder.RegisterPoint | script.js:116-132 | a point within tolerance of a registered one changes nothing; otherwise the point is registered as node `N(size+1)` at those coordinates; afterwards the point has a match; the new points and graph are the `Register` step |
| FloorBuilder.TwoPoints | script.js:116-132 | from nothing, two points more than the tolerance apart are both registered, in order, with no edges |
| FloorBuilder.RegisterBoth | script.js:50-51 | after registering both endpoints, edges are unchanged, earlier points keep their place, the only new points are the endpoints, and both endpoints have a match |
| FloorBuilder.Join | script.js:251-257 | equal ends change nothing; distinct ends append one edge between them; the points are unchanged |
| FloorBuilder.JoinEnds | script.js:53-55 | joining a line's ends keeps the points and the registration invariant |
| FloorBuilder.JoinEndsEdges | script.js:53-55 | when both ends have a match, the edges gain the edge between their first matches, unless both are one node |
| FloorBuilder.JoinEndpoints | script.js:53-55 | the two `findPointId` calls and the `addEdge` call perform exactly the `JoinEnds` step |
| FloorBuilder.PairIds | script.js:134-142 | with exactly two registered points more than the tolerance apart, each is found as itself |
| FloorBuilder.PairJoin | script.js:53-55 | with exactly a line's two ends registered, its ends are joined as `N1` and `N2` |
| FloorBuilder.JoinedPair | script.js:251-257 | joining `N1` and `N2` in an edgeless two-point graph gives exactly that edge, and keeps the nodes and their positions |
| FloorBuilder.LineStep | script.js:44-56 | one step of the line loop keeps points and nodes in step |
| FloorBuilder.LinesFold | script.js:39-57 | the line loop over a prefix of the lines keeps points and nodes in step |
| FloorBuilder.LinesFoldSnoc | script.js:39-57 | the fold over `i + 1` lines is one `LineStep` after the fold over `i` |
| FloorBuilder.FoldOne | script.js:39-57 | the fold over one line is one step from nothing |
| FloorBuilder.WalkableLineEdge | script.js:49-56 | a walkable line registers both endpoints, both then have ids, and the edges gain exactly the edge joining those ids, unless they are one node |
| FloorBuilder.RedLineNothing | script.js:45-47 | a red line leaves the points and the graph unchanged |
| FloorBuilder.OneLineGraph | script.js:39-57 | a single walkable line with ends more than the tolerance apart gives `N1` at its start, `N2` at its end, and the one edge between them |
| FloorBuilder.HorizontalLineBuilt | script.js:33-57 | the graph built from the line (0,0)-(10,0) has `N1` at (0,0), `N2` at (10,0) and the one edge `N1`-`N2` |
| FloorBuilder.FreshPoint | script.js:126-128 | a point matching no registered point is a new key, and the next id is unused |
| FloorBuilder.RegisteredAppend | script.js:126-131 | registering a point that matches none keeps the points map and the nodes in step |
| FloorBuilder.RegisteredNode | script.js:116-132 | the i-th registered point is node `N(i+1)`, placed at that point |
| FloorBuilder.ClosestLeaf | script.js:83-92 | selects exactly the leaf strictly inside the label radius that is strictly nearer than every earlier leaf and no farther than every later one; selects nothing exactly when no leaf is in the radius |
| FloorBuilder.ClosestUnique | script.js:83-92 | at most one node is the selected leaf |
| FloorBuilder.ClosestLayout | script.js:83-92 | the selection depends only on positions and edges, not on names, so naming one node does not change what later labels select |
| FloorBuilder.LabelNameIsLeaf | script.js:85 | only leaf nodes are ever named |
| FloorBuilder.LabelNameStep | script.js:72-97 | a label that selects node k gives it its trimmed text, and any other label leaves k's name as it was |
| FloorBuilder.UnmatchedLabelNamesNothing | script.js:73-77 | a red label, or a label without a `<tspan>`, names nothing |
| FloorBuilder.LabelNameLayout | script.js:72-97 | the name a node ends with depends only on the graph's layout |
| FloorBuilder.RegisterEndpoints | script.js:50-51 | the new points and graph are exactly the `Register` step for the start, then for the end; both endpoints get a registered match; only those endpoints are new points; edges are unchanged |
| FloorBuilder.AddWalkableLine | script.js:49-56 | for a walkable line, the new points and graph are exactly its `LineStep`, and the line-loop invariant holds one line further on |
| FloorBuilder.AddLine | script.js:40-56 | one step of the line loop, exactly `LineStep`: a red line adds its wall and changes nothing else; any other line registers its endpoints and joins them |
| FloorBuilder.LinesDoneFromLines | script.js:39-57 | after every line, the facts kept about the points map hold of the graph: nodes `N1`, `N2`, … in order at endpoints of walkable lines, pairwise farther apart than the tolerance, every walkable endpoint near a node, every edge drawn by a walkable line, no more edges than walkable lines |
| FloorBuilder.FromLinesLayout | script.js:72-97 | naming nodes does not disturb what the line loop established |
| FloorBuilder.SeparatedLayout | script.js:126-128 | nodes that stay at their positions stay more than the tolerance apart |
| FloorBuilder.EdgeLayout | script.js:49-56 | an edge that joins the ends of a walkable line still does after renaming |
| FloorBuilder.AddLines | script.js:34-57 | the line loop builds, in a fresh graph, exactly the graph of `LinesFold`; this graph has nodes `N1`, `N2`, … in order, pairwise farther apart than the tolerance, each at an endpoint of a walkable line; every walkable endpoint lies near a node; every edge is drawn by a walkable line, and there are no more edges than walkable lines; the walls are the red lines |
| FloorBuilder.AddPathWalls | script.js:60-69 | walls gain the red, non-blank paths, in order |
| FloorBuilder.ApplyLabel | script.js:72-97 | one label step: every node's name is the name the labels so far give it; the layout is unchanged |
| FloorBuilder.NameLeaf | script.js:94-96 | naming the leaf a label picks gives every node the name the labels up to it give; the layout is unchanged |
| FloorBuilder.RenameStep | script.js:94-96 | renaming the one node a label names takes every node's name from the labels before it to the labels up to it |
| FloorBuilder.RenameLayout | script.js:94-96 | renaming a node keeps positions, ids and adjacency |
| FloorBuilder.LabelName | script.js:72-97 | the name the labels give a node: the trimmed text of the last label that selects it, or none |
| FloorBuilder.ParseLinesToGraph | script.js:33-99 | returns a well-formed graph with the node ids, positions, adjacency lists and edges of `LinesFold`, in which every node carries the name of the last label selecting it (or none); the walls are the red lines, then the red non-blank paths |
| Stairs.IsStair | script.js:146 | a stair (also line 197) is a node with a name that starts with `L` |
| Stairs.ExtractStairs | script.js:144-147 | every extracted node is a stair |
| Stairs.StairFilterMembers | script.js:145-146 | the filter keeps exactly the stair nodes |
| Stairs.StairFilterAppend | script.js:145-146 | the filter distributes over concatenation, so order is kept |
| Stairs.ExtractStairsMembers | script.js:144-147 | a node is extracted exactly when it is a node of the graph and a stair |
| Stairs.CheckStairs | script.js:102-114 | the stair check: walks the stairs in order, recording each new name at its stair's position, and stops with failure at the first stair more than the tolerance from its recorded position |
| Stairs.FirstNamed | script.js:103-106 | the index of the first stair with a given name, or the length when there is none |
| Stairs.CheckStairsVerdict | script.js:102-114 | `validateStairs` succeeds exactly when every stair lies within tolerance of its canonical position (the recorded one, or else that of the first earlier stair with its name) |
| Stairs.WithinTail | script.js:103-110 | after a first stair that passes, the later stairs are within tolerance exactly when the rest of the run's stairs are |
| Stairs.CheckStairsKeeps | script.js:104-106 | existing records are never changed; every new record is for a stair's name |
| Stairs.CheckStairsRecords | script.js:102-114 | after success, every stair's name is recorded at its canonical position |
| Stairs.CheckStairsStops | script.js:108-110 | on failure there is a first stair out of tolerance; all earlier ones are within tolerance, and the records left are exactly those the earlier stairs made |
| Stairs.StopsAtShift | script.js:108-110 | the first failing stair of the rest of the run is, one place on, the first failing stair of the whole run |
| Stairs.CheckPrefixTail | script.js:103-110 | over a prefix, a first step that does not fail hands on to the run over the rest of the prefix |
| Stairs.ConnectOne | script.js:149-156 | one stair of the update: its name's floor map, created empty if missing, maps this floor to the stair's id; the connections stay well formed |
| Stairs.Connect | script.js:149-156 | the update: `ConnectOne` for each stair in order; the connections stay well formed |
| Stairs.LastIdForIndex | script.js:150-155 | the stair id that wins for a name is that of the last stair with the name; there is none exactly when no stair has the name |
| Stairs.ConnectNames | script.js:151-153 | after the update, a name is indexed exactly when it was before or some stair has it |
| Stairs.ConnectLookup | script.js:149-156 | after the update, the entry for a name and this floor is the last stair with that name; every other entry is unchanged |
| Stairs.ConnectFrom | script.js:150-155 | recording the stairs from index `i` on is recording stair `i`, then the ones after it |
| Floors.FloorNodesMembers | script.js:219-224 | a floor contributes exactly its nodes, each tagged with its floor |
| Floors.NodesOfFloorsMembers | script.js:218-225 | the first n floors contribute exactly their nodes |
| Floors.OnFloorsStep | script.js:218-225 | a node is on one of the first `n` floors exactly when it is on one of the first `n - 1` or on floor `n` |
| Floors.AllNodes | script.js:216-227 | the list `getAllNodes` returns: each floor's nodes in insertion order, tagged, floor by floor |
| Floors.FirstStart | script.js:229-238 | the start `getStartNode` reports: the first node in floor-then-node order named `"0"`, with its floor |
| Floors.AllNodesMembers | script.js:216-227 | a tagged node is listed exactly when its floor is registered and has that node |
| Search.HopsOverMembers | script.js:200-201 | a hop goes exactly to an entry of the stair's connection map for another floor |
| Search.Moves | script.js:180-211 | the locations pushed from a location, in push order: none for a missing floor or node; else its neighbours, then its stair hops |
| Search.Step | script.js:180-211 | one move, stated directly: along an adjacency entry on the same floor, or from a stair to the node recorded for its name on another floor |
| Search.MovesStep | script.js:180-211 | the moves from a location are exactly its same-floor neighbours and its same-named stairs on other floors; a missing floor or node has none |
| Search.StairsOf | script.js:206 | a path's stairs list: the name of each stair left at a floor change, in order |
| Search.StairsOfAreStairs | script.js:206 | every name in a path's stairs list is an indexed name starting with `L` |
| Search.ValidPathPrefix | script.js:191 | dropping the last location of a path of the layered graph leaves a path |
| Search.HopLeavesStair | script.js:197-206 | a move to another floor leaves a stair node whose name has recorded connections |
| Search.PushesSnoc | script.js:187-193 | pushing one more move adds its entry unless the target is visited |
| Search.PushesAppend | script.js:186-210 | pushing two runs of moves pushes the first run, then the second |
| Search.PushesMembers | script.js:186-210 | the pushed entries are exactly the extensions to the unvisited targets |
| Search.PushedQueued | script.js:186-210 | every unvisited move out of the popped entry is queued one step longer than it |
| Search.StillQueued | script.js:168 | an entry behind the popped one stays in the queue |
| Search.HopsOverSnoc | script.js:200-201 | one more connection entry adds its hop unless it is for the current floor |
| Search.PushHopStep | script.js:200-208 | the entry pushed for a hop records the stair's name in its stairs list |
| Search.ExtendOk | script.js:191 | extending a valid entry by a move gives a valid entry: its path is a path of the layered graph from the start, and its stairs list is that path's |
| Search.PushedOk | script.js:186-210 | every pushed entry is valid and one location longer than the one expanded |
| Search.SearchingInit | script.js:159-165 | the initial queue satisfies the search invariant |
| Search.PopVisited | script.js:170 | skipping a visited entry keeps the invariant |
| Search.ClosedPopVisited | script.js:170 | dropping an entry at a settled location keeps every move out of a settled location settled or queued in time |
| Search.PopNew | script.js:171-211 | settling an unvisited entry and pushing its moves keeps the invariant one level on |
| Search.ClosedPopNew | script.js:171-211 | after a pop, every move out of a settled location is settled at most one step later or queued at most one step later |
| Search.QueueStep | script.js:186-210 | the pushed entries are valid and keep the queue lengths sorted within two consecutive levels |
| Search.NoShorterPath | script.js:167-212 | for every path from the start: either its last location is settled no later than the path's length, or a queued entry is no longer than the path |
| Search.FoundShortest | script.js:173-177 | the entry popped at the end is no longer than any path from the start to the end |
| Search.Found | script.js:173-177 | the route returned is a valid route from the start to the end with its stairs, and as short as any path |
| Search.Exhausted | script.js:213 | an empty queue means the end is unreachable |
| Search.RouteToItself | script.js:163-177 | from a location to itself the shortest route is that location alone, with no stairs |
| Search.SearchSpace | script.js:167 | a finite set of locations holds the start and every move target |
| Search.PushesInSpace | script.js:186-210 | pushed entries lie in that set |
| Search.Skip | script.js:170 | a skip step keeps the invariant |
| Search.Advance | script.js:171-211 | an expand step keeps the invariant and visits one more location of the finite set |
| Search.Progress | script.js:171 | each expand step visits one more location of the finite set of reachable locations |
| MultiFloor.RemoveUnredLabels | script.js:21-27 | the labels left are exactly the red ones, in order |
| MultiFloor.MultiFloorGraph.constructor | script.js:2-7 | no floors, no stair connections, no stair coordinates |
| MultiFloor.MultiFloorGraph.ValidateStairs | script.js:102-114 | the verdict and the new stair coordinates are those of the stair check; the floors and connections are unchanged |
| MultiFloor.MultiFloorGraph.UpdateStairConnections | script.js:149-156 | the connections become those of the update, which keeps them well formed |
| MultiFloor.MultiFloorGraph.ConnectStair | script.js:151-154 | records one stair: its stairway's floor map gains or updates this floor's entry; nothing else changes |
| MultiFloor.ReadFloor | script.js:13-14 | the graph is the one `parseLinesToGraph` builds, the walls are its walls and the stairs are the graph's stairs |
| MultiFloor.MultiFloorGraph.AddFloor | script.js:9-31 | builds the floor's graph, walls, stairs and red-only drawing; the stair coordinates are those the check leaves, even on failure; on a mismatch it reports the floor and leaves floors and connections unchanged; otherwise it stores the floor record and indexes its stairs |
| MultiFloor.MultiFloorGraph.GetAllNodes | script.js:216-227 | the nodes of every floor, tagged with the floor, floor by floor in registration order |
| MultiFloor.PushFloorNodes | script.js:219-224 | pushing one floor's nodes appends exactly that floor's nodes, tagged, in insertion order |
| MultiFloor.MultiFloorGraph.GetStartNode | script.js:229-238 | returns the first node named `"0"` in floor-then-node order; returns nothing exactly when no node is so named |
| MultiFloor.MultiFloorGraph.PushNeighbours | script.js:186-195 | pushes exactly the entries for the unvisited neighbours, in order |
| MultiFloor.MultiFloorGraph.PushHops | script.js:197-211 | pushes exactly the entries for the unvisited same-named stairs on other floors, in connection order |
| MultiFloor.MultiFloorGraph.Expand | script.js:180-211 | the entries pushed are those for the location's moves, in order |
| MultiFloor.MultiFloorGraph.FindPathMultiFloor | script.js:158-214 | returns nothing exactly when the end is unreachable; otherwise returns a route from the start to the end along moves of the layered graph, with the stairs it takes, and no path is shorter |

## Left out

- SVG parsing (`DOMParser`, `querySelectorAll`, `getAttribute`) is not modelled. Each floor arrives as its `<line>`, `<path>` and `<text>` elements with the attributes read.
- `parseFloat(..) || 0` is not modelled. Coordinates are integers.
- Floating point is not modelled. `Math.hypot(..) <= 5` and `< 10` are compared as squared integer distances, and `toFixed(2)` point keys are exact points.
- `svg.outerHTML` is not modelled. The stored drawing keeps the parsed elements with only the red labels.
- Node ids are `N(k)`, standing for the strings `"N<k>"`. An id given to the search that has another form is not modelled.
- The visited keys `"floor|node"` are modelled as pairs. Every node id has the form `N<digits>`, so two different pairs cannot make the same key.
- The `Error` that `addFloor` throws is modelled as the `StairMismatch` outcome.
- The `DOMContentLoaded` block (`script.js:260` on) is not part of this model: file fetching, rendering and the UI.
- The graph object is aliased between the builder and the stored floor record. The model stores a snapshot of its value; nothing changes it after `addFloor`.
- `MultiFloor.MultiFloorGraph.UpdateStairConnections`: the code mutates the inner `Map` in place. The model builds the updated inner map and stores it back, which has the same effect.
- `MultiFloor.MultiFloorGraph.ValidateStairs`: requires every stair to be named. Its only caller passes the output of `extractStairs`, which is all named.
- `stairCoordinates` and the outer `stairConnections` are plain maps, because their order is never observed. The inner connection maps keep their order, which the search observes.
- `this.tolerance` is a constant (5) and not a field.
