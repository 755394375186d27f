/** `MultiFloorGraph`: the floors registered so far and the two stair indexes,
    with `addFloor`, `validateStairs`, `updateStairConnections`,
    `findPathMultiFloor`, `getAllNodes` and `getStartNode`. */
module MultiFloor {
  import opened Wrappers
  import opened OrderedMaps
  import opened Geometry
  import opened JsText
  import opened FloorGraph
  import opened Drawing
  import opened FloorBuilder
  import opened Stairs
  import opened Floors
  import opened Search

  /** What `addFloor` does: adds the floor, or throws the stair-mismatch error for it. */
  datatype AddOutcome = Added | StairMismatch(floorId: string)

  /** The labels left in the stored drawing: the `<text>` loop of `addFloor`
      removes every label whose fill is not red. */
  method RemoveUnredLabels(texts: seq<TextElement>) returns (kept: seq<TextElement>)
    ensures kept == RedLabels(texts)
  {
    kept := [];
    var i := 0;
    while i < |texts|
      invariant 0 <= i <= |texts|
      invariant kept == RedLabels(texts[..i])
    {
      assert texts[..i + 1][..i] == texts[..i];
      if IsRed(texts[i].fill) {
        kept := kept + [texts[i]];
      }
      i := i + 1;
    }
    assert texts[..|texts|] == texts;
  }

  /** The first two steps of `addFloor`: the floor's graph and walls, and the
      stairs of that graph. */
  method ReadFloor(svg: Svg) returns (g: GraphData, walls: seq<Wall>, stairs: seq<Node>)
    ensures BuiltFrom(g, svg.lines, svg.texts)
    ensures walls == WallsOf(svg.lines, svg.paths)
    ensures stairs == ExtractStairs(g.nodes)
  {
    var graph;
    graph, walls := ParseLinesToGraph(svg.lines, svg.paths, svg.texts);
    stairs := ExtractStairs(graph.nodes);
    g := graph.Data();
  }

  /** The `forEach` over one floor's nodes in `getAllNodes`: each node,
      tagged with the floor, is pushed onto `all`. */
  method PushFloorNodes(all: seq<TaggedNode>, floorId: string, nodes: NodeMap) returns (all': seq<TaggedNode>)
    requires nodes.Valid()
    ensures all' == all + FloorNodes(floorId, nodes)
  {
    all' := all;
    var j := 0;
    while j < |nodes.keys|
      invariant 0 <= j <= |nodes.keys|
      invariant all' == all + FloorNodes(floorId, nodes)[..j]
    {
      assert FloorNodes(floorId, nodes)[..j + 1] == FloorNodes(floorId, nodes)[..j] + [TaggedNode(nodes.m[nodes.keys[j]], floorId)];
      all' := all' + [TaggedNode(nodes.m[nodes.keys[j]], floorId)];
      j := j + 1;
    }
    assert FloorNodes(floorId, nodes)[..|nodes.keys|] == FloorNodes(floorId, nodes);
  }

  class MultiFloorGraph {
    var floors: FloorMap
    var stairConnections: Connections
    var stairCoordinates: Coordinates

    ghost predicate Valid()
      reads this
    {
      FloorsValid(floors) && ValidConnections(stairConnections)
    }

    constructor()
      ensures Valid()
      ensures floors == Empty() && stairConnections == map[] && stairCoordinates == map[]
    {
      floors := Empty();
      stairConnections := map[];
      stairCoordinates := map[];
    }

    /** `validateStairs`: records each new stair name at its position and
      checks each known one against its record, stopping at the first that
      is out of tolerance. `floorId` is not used. */
    method ValidateStairs(floorId: string, stairs: seq<Node>) returns (ok: bool)
      requires AllStairs(stairs)
      modifies this
      ensures (ok, stairCoordinates) == CheckStairs(old(stairCoordinates), stairs)
      ensures floors == old(floors) && stairConnections == old(stairConnections)
    {
      var i := 0;
      while i < |stairs|
        invariant 0 <= i <= |stairs|
        invariant AllStairs(stairs[i..])
        invariant CheckStairs(old(stairCoordinates), stairs) == CheckStairs(stairCoordinates, stairs[i..])
        invariant floors == old(floors) && stairConnections == old(stairConnections)
      {
        var stair := stairs[i];
        AllStairsTail(stairs[i..]);
        assert stairs[i..][0] == stair && stairs[i..][1..] == stairs[i + 1..];
        var name := stair.name.value;
        if name !in stairCoordinates {
          stairCoordinates := stairCoordinates[name := stair.Pos()];
        } else {
          var expected := stairCoordinates[name];
          if !WithinTolerance(expected, stair.Pos()) {
            return false;
          }
        }
        i := i + 1;
      }
      return true;
    }

    /** `updateStairConnections`: records every stair under its name and `floorId`. */
    method UpdateStairConnections(floorId: string, stairs: seq<Node>)
      requires ValidConnections(stairConnections) && AllStairs(stairs)
      modifies this
      ensures stairConnections == Connect(old(stairConnections), floorId, stairs)
      ensures floors == old(floors) && stairCoordinates == old(stairCoordinates)
    {
      var i := 0;
      while i < |stairs|
        invariant 0 <= i <= |stairs|
        invariant ValidConnections(stairConnections)
        invariant Connect(old(stairConnections), floorId, stairs) == Connect(stairConnections, floorId, stairs[i..])
        invariant floors == old(floors) && stairCoordinates == old(stairCoordinates)
      {
        ConnectFrom(stairConnections, floorId, stairs, i);
        ConnectStair(floorId, stairs[i]);
        i := i + 1;
      }
    }

    /** The `forEach` callback of `updateStairConnections`: the stair's name
      gets a connection map if it has none, and the map records the stair's
      id under `floorId`. */
    method ConnectStair(floorId: string, stair: Node)
      requires ValidConnections(stairConnections) && IsStair(stair)
      modifies this
      ensures stairConnections == ConnectOne(old(stairConnections), floorId, stair)
      ensures floors == old(floors) && stairCoordinates == old(stairCoordinates)
    {
      var name := stair.name.value;
      var inner := if name in stairConnections then stairConnections[name] else Empty();
      stairConnections := stairConnections[name := inner.Put(floorId, stair.id)];
    }

    /** `addFloor(floorId, svgContent)` on the parsed drawing. `built` is the
      floor record it computes. The stair check runs before anything else
      changes, but even when it fails the stair coordinates it recorded stay. */
    method AddFloor(floorId: string, svg: Svg) returns (outcome: AddOutcome, ghost built: FloorData)
      requires Valid()
      modifies this
      ensures Valid()
      ensures BuiltFrom(built.graph, svg.lines, svg.texts)
      ensures built.walls == WallsOf(svg.lines, svg.paths)
      ensures built.stairs == ExtractStairs(built.graph.nodes)
      ensures built.drawing == Svg(svg.lines, svg.paths, RedLabels(svg.texts))
      ensures (outcome == Added, stairCoordinates) == CheckStairs(old(stairCoordinates), built.stairs)
      ensures outcome != Added ==>
        outcome == StairMismatch(floorId) && floors == old(floors) && stairConnections == old(stairConnections)
      ensures outcome == Added ==>
        floors == old(floors).Put(floorId, built) &&
        stairConnections == Connect(old(stairConnections), floorId, built.stairs)
    {
      var graph, walls, stairs := ReadFloor(svg);
      var ok := ValidateStairs(floorId, stairs);
      var kept := RemoveUnredLabels(svg.texts);
      var record := FloorData(graph, Svg(svg.lines, svg.paths, kept), stairs, walls);
      built := record;
      if !ok {
        return StairMismatch(floorId), built;
      }
      ghost var before := floors;
      floors := floors.Put(floorId, record);
      assert FloorsValid(floors) by {
        forall f | f in floors.m ensures WellFormed(floors.m[f].graph) {
          if f != floorId {
            assert floors.Get(f) == before.Get(f);
          }
        }
      }
      UpdateStairConnections(floorId, stairs);
      outcome := Added;
    }

    /** `getAllNodes`: every floor's nodes tagged with the floor id,
      floor by floor in registration order. */
    method GetAllNodes() returns (all: seq<TaggedNode>)
      requires Valid()
      ensures all == AllNodes(floors)
    {
      all := [];
      var i := 0;
      while i < |floors.keys|
        invariant 0 <= i <= |floors.keys|
        invariant all == NodesOfFloors(floors, i)
      {
        var floorId := floors.keys[i];
        assert floorId in floors.keys;
        all := PushFloorNodes(all, floorId, floors.m[floorId].graph.nodes);
        i := i + 1;
      }
    }

    /** `getStartNode`: the first node, floor by floor, named `"0"`. */
    method GetStartNode() returns (r: Option<StartPoint>)
      requires Valid()
      ensures r.Some? ==> FirstStart(floors, r.value)
      ensures r.None? <==> forall i: nat, j: nat :: !StartAt(floors, i, j)
    {
      var i := 0;
      while i < |floors.keys|
        invariant 0 <= i <= |floors.keys|
        invariant forall i': nat, j': nat :: i' < i ==> !StartAt(floors, i', j')
      {
        var nodes := FloorAt(floors, i).graph.nodes;
        var j := 0;
        while j < |nodes.keys|
          invariant 0 <= j <= |nodes.keys|
          invariant forall i': nat, j': nat :: Before(i', j', i, j) ==> !StartAt(floors, i', j')
        {
          var node := nodes.m[nodes.keys[j]];
          if node.name == Some(StartMarker) {
            assert StartAt(floors, i, j);
            return Some(StartPoint(floors.keys[i], node.id));
          }
          j := j + 1;
        }
        i := i + 1;
      }
      return None;
    }

    /** The entries pushed for the unvisited neighbours of `current`, whose node is `n`. */
    method PushNeighbours(current: Entry, n: Node, visited: set<Loc>) returns (pushed: seq<Entry>)
      ensures pushed == Pushes(floors, current, Neighbours(current.floor, n), visited)
    {
      var ns := Neighbours(current.floor, n);
      pushed := [];
      var i := 0;
      while i < |n.edges|
        invariant 0 <= i <= |n.edges|
        invariant pushed == Pushes(floors, current, ns[..i], visited)
      {
        var neighbor := Loc(current.floor, n.edges[i]);
        assert ns[..i + 1] == ns[..i] + [neighbor];
        PushesSnoc(floors, current, ns[..i], neighbor, visited);
        if neighbor !in visited {
          pushed := pushed + [Entry(current.floor, n.edges[i], current.path + [neighbor], current.stairs)];
        }
        i := i + 1;
      }
      assert ns[..|n.edges|] == ns;
    }

    /** The entries pushed for the unvisited stair hops from `current`, whose node is `n`. */
    method PushHops(current: Entry, n: Node, visited: set<Loc>) returns (pushed: seq<Entry>)
      requires Valid() && NodeOf(floors, current.At()) == Some(n)
      ensures pushed == Pushes(floors, current, StairHops(stairConnections, current.floor, n), visited)
    {
      pushed := [];
      if !(n.name.Some? && StartsWith(n.name.value, "L")) {
        return;
      }
      var name := n.name.value;
      if name !in stairConnections {
        return;
      }
      var connected := stairConnections[name];
      var j := 0;
      while j < |connected.keys|
        invariant 0 <= j <= |connected.keys|
        invariant pushed == Pushes(floors, current, HopsOver(connected.m, current.floor, connected.keys[..j]), visited)
      {
        var floorId := connected.keys[j];
        assert floorId in connected.keys;
        var stairId := connected.m[floorId];
        PushHopStep(floors, current, n, connected.m, connected.keys, j, visited);
        if floorId != current.floor && Loc(floorId, stairId) !in visited {
          pushed := pushed + [Entry(floorId, stairId, current.path + [Loc(floorId, stairId)], current.stairs + [name])];
        }
        j := j + 1;
      }
      assert connected.keys[..|connected.keys|] == connected.keys;
    }

    /** One expansion of the search: the entries pushed for the unvisited
      neighbours of `current`, then for the unvisited stair hops from it. */
    method Expand(current: Entry, visited: set<Loc>) returns (pushed: seq<Entry>)
      requires Valid()
      ensures pushed == Pushes(floors, current, Moves(floors, stairConnections, current.At()), visited)
    {
      pushed := [];
      var floorData := floors.Get(current.floor);
      if floorData.None? {
        return;
      }
      var found := floorData.value.graph.nodes.Get(current.node);
      if found.None? {
        return;
      }
      var n := found.value;
      assert NodeOf(floors, current.At()) == Some(n);
      var near := PushNeighbours(current, n, visited);
      var hops := PushHops(current, n, visited);
      PushesAppend(floors, current, Neighbours(current.floor, n), StairHops(stairConnections, current.floor, n), visited);
      pushed := near + hops;
    }

    /** `findPathMultiFloor`: breadth-first search of the layered graph from
      the start location. It returns a route exactly when the end is
      reachable, and then one with as few locations as any path. */
    method FindPathMultiFloor(startFloorId: string, startId: NodeId, endFloorId: string, endId: NodeId)
      returns (r: Option<Route>)
      requires Valid()
      ensures r.None? <==> !Reachable(floors, stairConnections, Loc(startFloorId, startId), Loc(endFloorId, endId))
      ensures r.Some? ==>
        && IsRoute(floors, stairConnections, Loc(startFloorId, startId), Loc(endFloorId, endId), r.value)
        && Shortest(floors, stairConnections, Loc(startFloorId, startId), Loc(endFloorId, endId), r.value)
    {
      var start := Loc(startFloorId, startId);
      var end := Loc(endFloorId, endId);
      ghost var U := SearchSpace(floors, stairConnections, start);
      var visited: set<Loc> := {};
      var queue := [Entry(startFloorId, startId, [start], [])];
      ghost var settled: map<Loc, nat> := map[];
      ghost var level: nat := 1;
      SearchingInit(floors, stairConnections, start, end);
      while queue != []
        invariant Searching(floors, stairConnections, start, end, queue, settled, level)
        invariant visited == settled.Keys && visited <= U && InSpace(queue, U)
        decreases |U - visited|, |queue|
      {
        ghost var q0 := queue;
        var current := queue[0];
        queue := queue[1..];
        var here := Loc(current.floor, current.node);
        if here in visited {
          Skip(floors, stairConnections, start, end, U, q0, settled, level);
        } else {
          if current.floor == endFloorId && current.node == endId {
            Found(floors, stairConnections, start, end, q0, settled, level);
            return Some(Route(current.path, current.stairs));
          }
          ghost var settled' := settled[here := |current.path|];
          ghost var v0 := visited;
          visited := visited + {here};
          var pushed := Expand(current, visited);
          Advance(floors, stairConnections, start, end, U, q0, settled, level, settled', visited, pushed);
          settled, level := settled', |current.path|;
          queue := queue + pushed;
        }
      }
      Exhausted(floors, stairConnections, start, end, settled, level);
      return None;
    }
  }
}
