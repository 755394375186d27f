/** `parseLinesToGraph` and its helpers `registerPoint` and `findPointId`:
    turn one floor's lines and labels into a graph, merging endpoints that lie
    within the tolerance of an already registered point. These are methods of
    `MultiFloorGraph` in script.js that read nothing of it but the constant
    tolerance, so here they stand alone. */
module FloorBuilder {
  import opened Wrappers
  import opened OrderedMaps
  import opened Geometry
  import opened JsText
  import opened FloorGraph
  import opened Drawing

  /** The local `points` map: registered position -> node id, in registration order. */
  type PointMap = OrderedMap<Point, NodeId>

  /** Entry `i` is the first registered point within tolerance of `p`. */
  ghost predicate FirstWithin(keys: seq<Point>, p: Point, i: int) {
    && 0 <= i < |keys|
    && WithinTolerance(keys[i], p)
    && forall j :: 0 <= j < i ==> !WithinTolerance(keys[j], p)
  }

  ghost predicate AnyWithin(keys: seq<Point>, p: Point) {
    exists i :: 0 <= i < |keys| && WithinTolerance(keys[i], p)
  }

  /** The points map and the graph's nodes describe the same registrations:
      the `i`-th point registered is node `N(i + 1)`, placed at that point, and
      no two registered points are within tolerance of each other. */
  ghost predicate Registered(points: PointMap, nodes: NodeMap) {
    && points.Valid() && nodes.Valid()
    && |points.keys| == |nodes.keys|
    && (forall i :: 0 <= i < |points.keys| ==>
          && nodes.keys[i] == N(i + 1)
          && points.m[points.keys[i]] == N(i + 1)
          && nodes.m[N(i + 1)].Pos() == points.keys[i])
    && (forall i, j :: 0 <= i < j < |points.keys| ==> !WithinTolerance(points.keys[i], points.keys[j]))
  }

  /** A point that no registered point is within tolerance of is not itself a
      key, and the next id is not yet a node. */
  lemma FreshPoint(points: PointMap, nodes: NodeMap, p: Point)
    requires Registered(points, nodes)
    requires forall j :: 0 <= j < |points.keys| ==> !WithinTolerance(points.keys[j], p)
    ensures p !in points.m && N(|points.keys| + 1) !in nodes.m
    ensures !AnyWithin(points.keys, p)
  {
    var k := |points.keys|;
    assert forall j :: 0 <= j < k ==> points.keys[j] != p;
    forall j | 0 <= j < |nodes.keys|
      ensures nodes.keys[j] != N(k + 1)
    {
      assert nodes.keys[j] == N(j + 1);
    }
  }

  /** Registering such a point keeps the points map and the nodes in step. */
  lemma RegisteredAppend(points: PointMap, nodes: NodeMap, p: Point)
    requires Registered(points, nodes)
    requires forall j :: 0 <= j < |points.keys| ==> !WithinTolerance(points.keys[j], p)
    ensures Registered(points.Put(p, N(|points.keys| + 1)),
                       nodes.Put(N(|points.keys| + 1), Node(N(|points.keys| + 1), p.x, p.y, [], None)))
  {
    FreshPoint(points, nodes, p);
    var k := |points.keys|;
    var points' := points.Put(p, N(k + 1));
    var nodes' := nodes.Put(N(k + 1), Node(N(k + 1), p.x, p.y, [], None));
    assert points'.keys == points.keys + [p];
    assert nodes'.keys == nodes.keys + [N(k + 1)];
    forall i | 0 <= i < |points'.keys|
      ensures nodes'.keys[i] == N(i + 1)
      ensures points'.m[points'.keys[i]] == N(i + 1)
      ensures nodes'.m[N(i + 1)].Pos() == points'.keys[i]
    {
      if i < k {
        assert points'.keys[i] == points.keys[i] && points.keys[i] != p;
        assert points'.Get(points.keys[i]) == points.Get(points.keys[i]);
        assert nodes'.Get(N(i + 1)) == nodes.Get(N(i + 1));
      } else {
        assert points'.Get(p) == Some(N(k + 1));
        assert nodes'.Get(N(k + 1)) == Some(Node(N(k + 1), p.x, p.y, [], None));
      }
    }
    forall i, j | 0 <= i < j < |points'.keys|
      ensures !WithinTolerance(points'.keys[i], points'.keys[j])
    {
      if j == k {
        assert points'.keys[i] == points.keys[i];
      }
    }
  }

  /** `findPointId`: the id of the first registered point within tolerance of
      `(x, y)`, or `null` when there is none. */
  method FindPointId(points: PointMap, x: int, y: int) returns (id: Option<NodeId>)
    requires points.Valid()
    ensures id.None? <==> !AnyWithin(points.keys, Point(x, y))
    ensures id.Some? ==> exists i :: FirstWithin(points.keys, Point(x, y), i) && id.value == points.m[points.keys[i]]
    ensures id == PointIdOf(points, Point(x, y))
  {
    var i := 0;
    while i < |points.keys|
      invariant 0 <= i <= |points.keys|
      invariant forall j :: 0 <= j < i ==> !WithinTolerance(points.keys[j], Point(x, y))
    {
      var key := points.keys[i];
      if WithinTolerance(key, Point(x, y)) {
        assert FirstWithin(points.keys, Point(x, y), i);
        return Some(points.m[key]);
      }
      i := i + 1;
    }
    return None;
  }

  /** The index of the first registered point within tolerance of `p`, or
      `|keys|` when there is none. */
  function FirstMatch(keys: seq<Point>, p: Point): (r: nat)
    ensures r <= |keys|
    ensures r < |keys| ==> FirstWithin(keys, p, r)
    ensures r == |keys| <==> !AnyWithin(keys, p)
  {
    if keys == [] then 0
    else if WithinTolerance(keys[0], p) then 0
    else
      var r' := FirstMatch(keys[1..], p);
      assert forall j :: 0 <= j < |keys| - 1 ==> keys[1..][j] == keys[j + 1];
      assert r' < |keys| - 1 ==> WithinTolerance(keys[r' + 1], p);
      1 + r'
  }

  /** The id `findPointId` answers for `p`: that of the first registered point
      within tolerance, or `null`. */
  function PointIdOf(points: PointMap, p: Point): (r: Option<NodeId>)
    requires points.Valid()
    ensures r.None? <==> !AnyWithin(points.keys, p)
    ensures r.Some? ==> exists i :: FirstWithin(points.keys, p, i) && r.value == points.m[points.keys[i]]
  {
    var i := FirstMatch(points.keys, p);
    if i < |points.keys| then
      assert points.keys[i] in points.keys;
      Some(points.m[points.keys[i]])
    else None
  }

  /** The state of the `<line>` loop: the local `points` map and the graph. */
  datatype LineState = LineState(points: PointMap, g: GraphData)

  /** The state before the first line. */
  function NoLines(): (r: LineState)
    ensures Registered(r.points, r.g.nodes)
  {
    LineState(Empty(), GraphData(Empty(), []))
  }

  /** A point no registered point is within tolerance of, registered as node
      `N(size + 1)` at that point, unnamed and without adjacency. */
  function AddPoint(s: LineState, p: Point): (r: LineState)
    requires Registered(s.points, s.g.nodes) && !AnyWithin(s.points.keys, p)
    ensures Registered(r.points, r.g.nodes) && r.g.edges == s.g.edges
    ensures r.points.keys == s.points.keys + [p]
  {
    FreshPoint(s.points, s.g.nodes, p);
    RegisteredAppend(s.points, s.g.nodes, p);
    LineState(s.points.Put(p, N(|s.points.keys| + 1)),
              GraphData(s.g.nodes.Put(N(|s.points.keys| + 1), Node(N(|s.points.keys| + 1), p.x, p.y, [], None)), s.g.edges))
  }

  /** `registerPoint` on the loop state: a point no registered point is within
      tolerance of becomes node `N(size + 1)`; any other point changes nothing. */
  function Register(s: LineState, p: Point): (r: LineState)
    requires Registered(s.points, s.g.nodes)
    ensures Registered(r.points, r.g.nodes) && r.g.edges == s.g.edges
    ensures AnyWithin(s.points.keys, p) <==> r == s
    ensures !AnyWithin(s.points.keys, p) ==> r.points.keys == s.points.keys + [p]
  {
    if FirstMatch(s.points.keys, p) < |s.points.keys| then s
    else AddPoint(s, p)
  }

  /** A resolved id names a node of the graph. */
  lemma IdRegistered(points: PointMap, nodes: NodeMap, p: Point)
    requires Registered(points, nodes) && PointIdOf(points, p).Some?
    ensures PointIdOf(points, p).value in nodes.m
  {
    RegisteredNode(points, nodes, FirstMatch(points.keys, p));
  }

  /** `graph.addEdge(a, b)` on the loop state. */
  function Join(s: LineState, a: NodeId, b: NodeId): (r: LineState)
    requires Registered(s.points, s.g.nodes) && a in s.g.nodes.m && b in s.g.nodes.m
    ensures Registered(r.points, r.g.nodes) && r.points == s.points
    ensures a == b ==> r == s
    ensures a != b ==> r.g.edges == s.g.edges + [Edge(a, b)]
  {
    if a == b then s
    else
      RegisteredSameLayout(s.points, s.g.nodes, Link(s.g.nodes, a, b));
      LineState(s.points, GraphData(Link(s.g.nodes, a, b), s.g.edges + [Edge(a, b)]))
  }

  /** The end of a walkable line's iteration: `findPointId` for both endpoints,
      then `addEdge` between the two ids when both are found. */
  function JoinEnds(s: LineState, line: Line): (r: LineState)
    requires Registered(s.points, s.g.nodes)
    ensures Registered(r.points, r.g.nodes) && r.points == s.points
  {
    var a, b := PointIdOf(s.points, line.Start()), PointIdOf(s.points, line.End());
    if a.Some? && b.Some? then
      IdRegistered(s.points, s.g.nodes, line.Start());
      IdRegistered(s.points, s.g.nodes, line.End());
      Join(s, a.value, b.value)
    else s
  }

  /** One iteration of the `<line>` loop on its state: a red line changes
      nothing here (it becomes a wall); any other line registers its start,
      then its end, resolves both to their ids and joins them. */
  function LineStep(s: LineState, line: Line): (r: LineState)
    requires Registered(s.points, s.g.nodes)
    ensures Registered(r.points, r.g.nodes)
  {
    if IsRed(line.stroke) then s
    else JoinEnds(Register(Register(s, line.Start()), line.End()), line)
  }

  /** The state the `<line>` loop leaves after `lines`, in document order. */
  function LinesFold(lines: seq<Line>): (r: LineState)
    ensures Registered(r.points, r.g.nodes)
    decreases |lines|
  {
    if lines == [] then NoLines()
    else LineStep(LinesFold(lines[..|lines| - 1]), lines[|lines| - 1])
  }

  /** The loop over one more line is one more step. */
  lemma LinesFoldSnoc(lines: seq<Line>, i: nat)
    requires i < |lines|
    ensures LinesFold(lines[..i + 1]) == LineStep(LinesFold(lines[..i]), lines[i])
  {
    assert lines[..i + 1][..i] == lines[..i];
  }

  /** After both registrations, `findPointId` finds both endpoints, so the
      `if (a && b)` guard always holds and a walkable line adds exactly the
      edge between the ids its endpoints resolve to, unless they are equal. */
  lemma WalkableLineEdge(lines: seq<Line>, i: nat)
    requires i < |lines| && !IsRed(lines[i].stroke)
    ensures var before := LinesFold(lines[..i]);
      var s2 := Register(Register(before, lines[i].Start()), lines[i].End());
      var a, b := PointIdOf(s2.points, lines[i].Start()), PointIdOf(s2.points, lines[i].End());
      && a.Some? && b.Some?
      && LinesFold(lines[..i + 1]).points == s2.points
      && LinesFold(lines[..i + 1]).g.edges ==
           before.g.edges + (if a.value != b.value then [Edge(a.value, b.value)] else [])
  {
    var before := LinesFold(lines[..i]);
    var s2 := Register(Register(before, lines[i].Start()), lines[i].End());
    LinesFoldSnoc(lines, i);
    RegisterBoth(before, lines[i].Start(), lines[i].End());
    assert LinesFold(lines[..i + 1]) == JoinEnds(s2, lines[i]);
    JoinEndsEdges(s2, lines[i]);
  }

  /** Once both ends of a line have a match, joining them adds the edge between
      their first matches, unless that is one node. */
  lemma JoinEndsEdges(s: LineState, line: Line)
    requires Registered(s.points, s.g.nodes)
    requires AnyWithin(s.points.keys, line.Start()) && AnyWithin(s.points.keys, line.End())
    ensures var a, b := PointIdOf(s.points, line.Start()), PointIdOf(s.points, line.End());
      && a.Some? && b.Some?
      && JoinEnds(s, line).g.edges == s.g.edges + (if a.value != b.value then [Edge(a.value, b.value)] else [])
  {
    var a, b := PointIdOf(s.points, line.Start()), PointIdOf(s.points, line.End());
    IdRegistered(s.points, s.g.nodes, line.Start());
    IdRegistered(s.points, s.g.nodes, line.End());
    assert JoinEnds(s, line) == Join(s, a.value, b.value);
  }

  /** A red line leaves the points and the graph as they were. */
  lemma RedLineNothing(lines: seq<Line>, i: nat)
    requires i < |lines| && IsRed(lines[i].stroke)
    ensures LinesFold(lines[..i + 1]) == LinesFold(lines[..i])
  {
    LinesFoldSnoc(lines, i);
  }

  /** Two registered points that are not within tolerance of each other are
      each found as themselves. */
  lemma PairIds(points: PointMap, a: Point, b: Point)
    requires points.Valid() && points.keys == [a, b] && !WithinTolerance(a, b)
    ensures PointIdOf(points, a) == Some(points.m[a])
    ensures PointIdOf(points, b) == Some(points.m[b])
  {
    assert points.keys[1..] == [b];
    assert FirstMatch([b], b) == 0;
  }

  /** Registering two points more than the tolerance apart, starting from
      nothing, registers both, in that order. */
  lemma TwoPoints(p: Point, q: Point)
    requires !WithinTolerance(p, q)
    ensures var s := Register(Register(NoLines(), p), q);
      s.points.keys == [p, q] && s.g.edges == []
  {
  }

  /** With exactly a line's two ends registered, its ends are joined as
      `N1` and `N2`. */
  lemma PairJoin(s: LineState, line: Line)
    requires Registered(s.points, s.g.nodes)
    requires s.points.keys == [line.Start(), line.End()] && !WithinTolerance(line.Start(), line.End())
    ensures N(1) in s.g.nodes.m && N(2) in s.g.nodes.m
    ensures JoinEnds(s, line) == Join(s, N(1), N(2))
  {
    PairIds(s.points, line.Start(), line.End());
    assert s.points.m[s.points.keys[0]] == N(1);
    assert s.points.m[s.points.keys[1]] == N(2);
    RegisteredNode(s.points, s.g.nodes, 0);
    RegisteredNode(s.points, s.g.nodes, 1);
  }

  /** Joining the two nodes of a two-point registration with no edges gives
      that one edge. */
  lemma JoinedPair(s: LineState)
    requires Registered(s.points, s.g.nodes) && |s.points.keys| == 2 && s.g.edges == []
    ensures N(1) in s.g.nodes.m && N(2) in s.g.nodes.m
    ensures var r := Join(s, N(1), N(2)).g;
      && r.nodes.keys == [N(1), N(2)] && N(1) in r.nodes.m && N(2) in r.nodes.m
      && r.edges == [Edge(N(1), N(2))]
      && r.nodes.m[N(1)].Pos() == s.points.keys[0] && r.nodes.m[N(2)].Pos() == s.points.keys[1]
  {
    RegisteredNode(s.points, s.g.nodes, 0);
    RegisteredNode(s.points, s.g.nodes, 1);
    assert s.g.nodes.keys == [N(1), N(2)];
    assert Join(s, N(1), N(2)).g.nodes == Link(s.g.nodes, N(1), N(2));
  }

  /** A single line is one step from nothing. */
  lemma FoldOne(line: Line)
    ensures LinesFold([line]) == LineStep(NoLines(), line)
  {
    assert [line][..0] == [];
  }

  /** A single walkable line whose ends are more than the tolerance apart
      gives node `N1` at its start and `N2` at its end, joined by one edge. */
  lemma OneLineGraph(line: Line)
    requires !IsRed(line.stroke) && !WithinTolerance(line.Start(), line.End())
    ensures var r := LinesFold([line]).g;
      && r.nodes.keys == [N(1), N(2)] && N(1) in r.nodes.m && N(2) in r.nodes.m
      && r.edges == [Edge(N(1), N(2))]
      && r.nodes.m[N(1)].Pos() == line.Start() && r.nodes.m[N(2)].Pos() == line.End()
  {
    var s := Register(Register(NoLines(), line.Start()), line.End());
    TwoPoints(line.Start(), line.End());
    PairJoin(s, line);
    FoldOne(line);
    JoinedPair(s);
  }

  /** The graph built from the one line from (0,0) to (10,0) with the default
      stroke has nodes `N1` at (0,0) and `N2` at (10,0) and the one edge
      between them. */
  lemma HorizontalLineBuilt(g: GraphData)
    requires BuiltFrom(g, [Line(0, 0, 10, 0, None)], [])
    ensures g.nodes.keys == [N(1), N(2)] && g.edges == [Edge(N(1), N(2))]
    ensures N(1) in g.nodes.m && g.nodes.m[N(1)].Pos() == Point(0, 0)
    ensures N(2) in g.nodes.m && g.nodes.m[N(2)].Pos() == Point(10, 0)
  {
    OneLineGraph(Line(0, 0, 10, 0, None));
  }

  /** `registerPoint`: when no registered point is within tolerance of `(x, y)`,
      registers `(x, y)` as node `N(size + 1)` and adds that node to the graph;
      otherwise changes nothing. Either way `(x, y)` is then within tolerance of
      a registered point, and earlier registrations keep their place. */
  method RegisterPoint(points: PointMap, graph: Graph, x: int, y: int) returns (points': PointMap)
    requires graph.Valid() && Registered(points, graph.nodes)
    modifies graph
    ensures graph.Valid() && Registered(points', graph.nodes)
    ensures graph.edges == old(graph.edges)
    ensures AnyWithin(points.keys, Point(x, y)) ==> points' == points && graph.nodes == old(graph.nodes)
    ensures !AnyWithin(points.keys, Point(x, y)) ==>
      && points' == points.Put(Point(x, y), N(|points.keys| + 1))
      && graph.nodes == old(graph.nodes).Put(N(|points.keys| + 1), Node(N(|points.keys| + 1), x, y, [], None))
      && points'.keys == points.keys + [Point(x, y)]
    ensures exists i :: FirstWithin(points'.keys, Point(x, y), i)
    ensures LineState(points', graph.Data()) == Register(LineState(points, old(graph.Data())), Point(x, y))
  {
    var p := Point(x, y);
    var found: Option<Point> := None;
    var i := 0;
    while i < |points.keys|
      invariant 0 <= i <= |points.keys|
      invariant forall j :: 0 <= j < i ==> !WithinTolerance(points.keys[j], p)
    {
      if WithinTolerance(points.keys[i], p) {
        found := Some(points.keys[i]);
        break;
      }
      i := i + 1;
    }

    if found.None? {
      ghost var s0 := LineState(points, graph.Data());
      assert !AnyWithin(points.keys, p);
      FreshPoint(points, graph.nodes, p);
      points' := points.Put(p, N(|points.keys| + 1));
      graph.AddNode(N(|points.keys| + 1), x, y);
      assert LineState(points', graph.Data()) == AddPoint(s0, p);
      assert FirstWithin(points'.keys, p, |points.keys|);
    } else {
      assert FirstWithin(points.keys, p, i);
      points' := points;
    }
  }

  ghost predicate LeafInRadius(nodes: NodeMap, p: Point, i: nat)
    requires nodes.Valid() && i < |nodes.keys|
  {
    NodeAt(nodes, i).IsLeaf() && WithinLabelRadius(NodeAt(nodes, i).Pos(), p)
  }

  /** Node `i` is the leaf a label at `p` selects: a leaf strictly inside the
      label radius, strictly nearer than every earlier leaf and no farther than
      every later one. */
  ghost predicate ClosestAt(nodes: NodeMap, p: Point, i: nat)
    requires nodes.Valid()
  {
    && i < |nodes.keys|
    && LeafInRadius(nodes, p, i)
    && (forall j :: 0 <= j < i && NodeAt(nodes, j).IsLeaf() ==>
          DistSq(NodeAt(nodes, i).Pos(), p) < DistSq(NodeAt(nodes, j).Pos(), p))
    && (forall j :: i < j < |nodes.keys| && NodeAt(nodes, j).IsLeaf() ==>
          DistSq(NodeAt(nodes, i).Pos(), p) <= DistSq(NodeAt(nodes, j).Pos(), p))
  }

  ghost predicate IsClosestLeaf(nodes: NodeMap, p: Point, k: NodeId)
    requires nodes.Valid()
  {
    exists i :: 0 <= i < |nodes.keys| && nodes.keys[i] == k && ClosestAt(nodes, p, i)
  }

  /** At most one node is the closest leaf. */
  lemma ClosestUnique(nodes: NodeMap, p: Point, i1: nat, i2: nat)
    requires nodes.Valid() && ClosestAt(nodes, p, i1) && ClosestAt(nodes, p, i2)
    ensures i1 == i2
  {
  }

  /** Which leaf is closest depends only on positions and adjacency, not names. */
  lemma ClosestLayout(a: NodeMap, b: NodeMap, p: Point, k: NodeId)
    requires a.Valid() && b.Valid() && SameLayout(a, b)
    ensures IsClosestLeaf(a, p, k) <==> IsClosestLeaf(b, p, k)
  {
    assert forall j :: 0 <= j < |a.keys| ==> NodeAt(a, j).Pos() == NodeAt(b, j).Pos() && NodeAt(a, j).edges == NodeAt(b, j).edges;
    forall i | 0 <= i < |a.keys|
      ensures ClosestAt(a, p, i) <==> ClosestAt(b, p, i)
    {
    }
  }

  /** The scan of `graph.nodes` for the label at `p` (script.js:83-92): the
      leaf within the label radius at least distance, the earliest on ties,
      or `null` when no leaf is within the radius. */
  method ClosestLeaf(nodes: NodeMap, p: Point) returns (closest: Option<NodeId>)
    requires nodes.Valid()
    ensures forall k :: closest == Some(k) <==> IsClosestLeaf(nodes, p, k)
    ensures closest.None? <==> forall i :: 0 <= i < |nodes.keys| ==> !LeafInRadius(nodes, p, i)
  {
    closest := None;
    var minDist: Option<int> := None;  // `Infinity`, then the squared distance of `closest`
    ghost var at := 0;
    var i := 0;
    while i < |nodes.keys|
      invariant 0 <= i <= |nodes.keys|
      invariant closest.None? ==> minDist.None? && forall j :: 0 <= j < i ==> !LeafInRadius(nodes, p, j)
      invariant closest.Some? ==>
        && at < i && closest.value == nodes.keys[at]
        && LeafInRadius(nodes, p, at)
        && minDist == Some(DistSq(NodeAt(nodes, at).Pos(), p))
        && (forall j :: 0 <= j < at && NodeAt(nodes, j).IsLeaf() ==>
              DistSq(NodeAt(nodes, at).Pos(), p) < DistSq(NodeAt(nodes, j).Pos(), p))
        && (forall j :: at < j < i && NodeAt(nodes, j).IsLeaf() ==>
              DistSq(NodeAt(nodes, at).Pos(), p) <= DistSq(NodeAt(nodes, j).Pos(), p))
    {
      var n := nodes.m[nodes.keys[i]];
      if n.IsLeaf() {
        var d := DistSq(n.Pos(), p);
        if d < LabelRadius * LabelRadius && (minDist.None? || d < minDist.value) {
          assert LeafInRadius(nodes, p, i);
          forall j | 0 <= j < i && NodeAt(nodes, j).IsLeaf()
            ensures d < DistSq(NodeAt(nodes, j).Pos(), p)
          {
            if closest.Some? && j != at {
              assert (j < at ==> DistSq(NodeAt(nodes, at).Pos(), p) < DistSq(NodeAt(nodes, j).Pos(), p));
            } else if closest.None? {
              assert !LeafInRadius(nodes, p, j);
            }
          }
          minDist := Some(d);
          closest := Some(nodes.keys[i]);
          at := i;
        }
      }
      i := i + 1;
    }
    if closest.Some? {
      assert ClosestAt(nodes, p, at);
      forall k | IsClosestLeaf(nodes, p, k)
        ensures k == closest.value
      {
        var i' :| 0 <= i' < |nodes.keys| && nodes.keys[i'] == k && ClosestAt(nodes, p, i');
        ClosestUnique(nodes, p, i', at);
      }
    }
  }

  /** A `<text>` that names node `k`: not red, with a tspan, whose position
      selects `k` as its closest leaf. */
  ghost predicate Names(nodes: NodeMap, t: TextElement, k: NodeId)
    requires nodes.Valid()
  {
    !IsRed(t.fill) && t.tspan.Some? && IsClosestLeaf(nodes, t.tspan.value.Pos(), k)
  }

  /** The name node `k` carries after the label loop over `texts`: the trimmed
      text of the last label that names it, or `null` when none does. */
  ghost function LabelName(nodes: NodeMap, texts: seq<TextElement>, k: NodeId): Option<string>
    requires nodes.Valid()
  {
    if texts == [] then None
    else
      var t := texts[|texts| - 1];
      if Names(nodes, t, k) then Some(Trim(t.tspan.value.text)) else LabelName(nodes, texts[..|texts| - 1], k)
  }

  /** Only leaves are ever named. */
  lemma {:induction false} LabelNameIsLeaf(nodes: NodeMap, texts: seq<TextElement>, k: NodeId)
    requires nodes.Valid() && LabelName(nodes, texts, k).Some?
    ensures k in nodes.m && nodes.m[k].IsLeaf()
  {
    var t := texts[|texts| - 1];
    if !Names(nodes, t, k) {
      LabelNameIsLeaf(nodes, texts[..|texts| - 1], k);
    }
  }

  /** A later label that names `k` overrides every earlier one; a label that
      does not name `k` leaves `k`'s name as it was. */
  lemma LabelNameStep(nodes: NodeMap, texts: seq<TextElement>, t: TextElement, k: NodeId)
    requires nodes.Valid()
    ensures Names(nodes, t, k) ==> LabelName(nodes, texts + [t], k) == Some(Trim(t.tspan.value.text))
    ensures !Names(nodes, t, k) ==> LabelName(nodes, texts + [t], k) == LabelName(nodes, texts, k)
  {
    assert (texts + [t])[..|texts|] == texts;
  }

  /** A red label, a label without tspan, and a label with no leaf within the
      radius name no node. */
  lemma UnmatchedLabelNamesNothing(nodes: NodeMap, texts: seq<TextElement>, t: TextElement, k: NodeId)
    requires nodes.Valid()
    requires IsRed(t.fill) || t.tspan.None? ||
      forall i :: 0 <= i < |nodes.keys| ==> !LeafInRadius(nodes, t.tspan.value.Pos(), i)
    ensures LabelName(nodes, texts + [t], k) == LabelName(nodes, texts, k)
  {
    LabelNameStep(nodes, texts, t, k);
  }

  lemma {:induction false} LabelNameLayout(a: NodeMap, b: NodeMap, texts: seq<TextElement>, k: NodeId)
    requires a.Valid() && b.Valid() && SameLayout(a, b)
    ensures LabelName(a, texts, k) == LabelName(b, texts, k)
  {
    if texts != [] {
      var t := texts[|texts| - 1];
      if t.tspan.Some? {
        ClosestLayout(a, b, t.tspan.value.Pos(), k);
      }
      LabelNameLayout(a, b, texts[..|texts| - 1], k);
    }
  }

  /** Node positions of `a` are still there, unmoved, in `b`. */
  ghost predicate PositionsKept(a: NodeMap, b: NodeMap) {
    forall k :: k in a.m ==> k in b.m && b.m[k].Pos() == a.m[k].Pos()
  }

  /** `p` is an endpoint of one of the first `n` lines, which is walkable. */
  ghost predicate PlacedByLine(p: Point, lines: seq<Line>, n: nat) {
    exists j :: 0 <= j < n && j < |lines| && !IsRed(lines[j].stroke) && (p == lines[j].Start() || p == lines[j].End())
  }

  /** Some node lies within tolerance of `p`. */
  ghost predicate Covered(nodes: NodeMap, p: Point) {
    exists k :: k in nodes.m && WithinTolerance(nodes.m[k].Pos(), p)
  }

  /** Edge `e` joins a node within tolerance of the start of one of the first
      `n` lines, which is walkable, to a node within tolerance of its end. */
  ghost predicate EdgeFromLine(nodes: NodeMap, e: Edge, lines: seq<Line>, n: nat) {
    exists j :: 0 <= j < n && j < |lines| && !IsRed(lines[j].stroke) && e.source in nodes.m && e.target in nodes.m
      && WithinTolerance(nodes.m[e.source].Pos(), lines[j].Start())
      && WithinTolerance(nodes.m[e.target].Pos(), lines[j].End())
  }

  /** No two nodes lie within tolerance of each other. */
  ghost predicate Separated(nodes: NodeMap) {
    && nodes.Valid()
    && forall i, j :: 0 <= i < j < |nodes.keys| ==>
         !WithinTolerance(NodeAt(nodes, i).Pos(), NodeAt(nodes, j).Pos())
  }

  /** Facts about the graph the line loop makes of `lines`: nodes `N1`, `N2`,
      ... in order, at mutual distance above the tolerance, each at an endpoint
      of a walkable line; every endpoint of a walkable line within tolerance of
      a node; every edge drawn by a walkable line; no more edges than walkable
      lines. `LinesFold` gives the graph itself. */
  ghost predicate FromLines(g: GraphData, lines: seq<Line>) {
    && g.nodes.Valid()
    && (forall i :: 0 <= i < |g.nodes.keys| ==> g.nodes.keys[i] == N(i + 1))
    && Separated(g.nodes)
    && (forall k :: k in g.nodes.m ==> PlacedByLine(g.nodes.m[k].Pos(), lines, |lines|))
    && (forall j :: 0 <= j < |lines| && !IsRed(lines[j].stroke) ==>
          Covered(g.nodes, lines[j].Start()) && Covered(g.nodes, lines[j].End()))
    && (forall e :: e in g.edges ==> EdgeFromLine(g.nodes, e, lines, |lines|))
    && |g.edges| <= WalkableCount(lines)
  }

  /** The graph `parseLinesToGraph` returns for these lines and labels. */
  ghost predicate BuiltFrom(g: GraphData, lines: seq<Line>, texts: seq<TextElement>) {
    && WellFormed(g)
    && SameLayout(LinesFold(lines).g.nodes, g.nodes) && g.edges == LinesFold(lines).g.edges
    && FromLines(g, lines)
    && (forall k :: k in g.nodes.m ==> g.nodes.m[k].name == LabelName(g.nodes, texts, k))
  }

  /** Every registered point is an endpoint of one of the first `n` lines, which is walkable. */
  ghost predicate PointsPlaced(keys: seq<Point>, lines: seq<Line>, n: nat) {
    forall q :: 0 <= q < |keys| ==> PlacedByLine(keys[q], lines, n)
  }

  /** Both endpoints of each of the first `n` lines that is walkable are within
      tolerance of a registered point. */
  ghost predicate EndpointsNear(keys: seq<Point>, lines: seq<Line>, n: nat) {
    forall j :: 0 <= j < n && j < |lines| && !IsRed(lines[j].stroke) ==>
      AnyWithin(keys, lines[j].Start()) && AnyWithin(keys, lines[j].End())
  }

  ghost predicate EdgesFrom(nodes: NodeMap, edges: seq<Edge>, lines: seq<Line>, n: nat) {
    forall e :: e in edges ==> EdgeFromLine(nodes, e, lines, n)
  }

  ghost predicate Unnamed(nodes: NodeMap) {
    forall k :: k in nodes.m ==> nodes.m[k].name == None
  }

  /** What the line loop has established after its first `n` lines, stated on
      the points map. */
  ghost predicate LinesDone(points: PointMap, g: GraphData, lines: seq<Line>, n: nat) {
    && n <= |lines|
    && Registered(points, g.nodes)
    && PointsPlaced(points.keys, lines, n)
    && EndpointsNear(points.keys, lines, n)
    && EdgesFrom(g.nodes, g.edges, lines, n)
    && |g.edges| <= WalkableCount(lines[..n])
    && Unnamed(g.nodes)
  }

  lemma PlacedLater(p: Point, lines: seq<Line>, n: nat)
    requires PlacedByLine(p, lines, n)
    ensures PlacedByLine(p, lines, n + 1)
  {
    var j :| 0 <= j < n && j < |lines| && !IsRed(lines[j].stroke) && (p == lines[j].Start() || p == lines[j].End());
  }

  lemma EdgeLater(nodes: NodeMap, nodes': NodeMap, e: Edge, lines: seq<Line>, n: nat)
    requires EdgeFromLine(nodes, e, lines, n) && PositionsKept(nodes, nodes')
    ensures EdgeFromLine(nodes', e, lines, n + 1)
  {
    var j :| 0 <= j < n && j < |lines| && !IsRed(lines[j].stroke) && e.source in nodes.m && e.target in nodes.m
      && WithinTolerance(nodes.m[e.source].Pos(), lines[j].Start())
      && WithinTolerance(nodes.m[e.target].Pos(), lines[j].End());
  }

  lemma EdgesLater(nodes: NodeMap, nodes': NodeMap, edges: seq<Edge>, lines: seq<Line>, n: nat)
    requires EdgesFrom(nodes, edges, lines, n) && PositionsKept(nodes, nodes')
    ensures EdgesFrom(nodes', edges, lines, n + 1)
  {
    forall e | e in edges
      ensures EdgeFromLine(nodes', e, lines, n + 1)
    {
      EdgeLater(nodes, nodes', e, lines, n);
    }
  }

  lemma PointsPlacedLater(keys: seq<Point>, keys': seq<Point>, lines: seq<Line>, n: nat)
    requires PointsPlaced(keys, lines, n) && keys <= keys' && n < |lines|
    requires |keys| < |keys'| ==> !IsRed(lines[n].stroke)
    requires forall q :: |keys| <= q < |keys'| ==> keys'[q] == lines[n].Start() || keys'[q] == lines[n].End()
    ensures PointsPlaced(keys', lines, n + 1)
  {
    forall q | 0 <= q < |keys'|
      ensures PlacedByLine(keys'[q], lines, n + 1)
    {
      if q < |keys| {
        assert keys'[q] == keys[q];
        PlacedLater(keys[q], lines, n);
      } else {
        assert 0 <= n < n + 1 && n < |lines| && !IsRed(lines[n].stroke);
      }
    }
  }

  lemma EndpointsNearLater(keys: seq<Point>, keys': seq<Point>, lines: seq<Line>, n: nat)
    requires EndpointsNear(keys, lines, n) && keys <= keys' && n < |lines|
    requires !IsRed(lines[n].stroke) ==> AnyWithin(keys', lines[n].Start()) && AnyWithin(keys', lines[n].End())
    ensures EndpointsNear(keys', lines, n + 1)
  {
    forall j | 0 <= j < n + 1 && j < |lines| && !IsRed(lines[j].stroke)
      ensures AnyWithin(keys', lines[j].Start()) && AnyWithin(keys', lines[j].End())
    {
      if j < n {
        var i1 :| 0 <= i1 < |keys| && WithinTolerance(keys[i1], lines[j].Start());
        var i2 :| 0 <= i2 < |keys| && WithinTolerance(keys[i2], lines[j].End());
        assert keys'[i1] == keys[i1] && keys'[i2] == keys[i2];
      }
    }
  }

  /** The `i`-th registered point is node `N(i + 1)`. */
  lemma RegisteredNode(points: PointMap, nodes: NodeMap, i: nat)
    requires Registered(points, nodes) && i < |points.keys|
    ensures nodes.keys[i] == N(i + 1) && N(i + 1) in nodes.m
    ensures nodes.m[N(i + 1)].Pos() == points.keys[i]
  {
    assert nodes.keys[i] in nodes.keys;
  }

  /** Registrations keep the positions of the nodes registered before. */
  lemma RegisteredKeepsPositions(points: PointMap, nodes: NodeMap, points': PointMap, nodes': NodeMap)
    requires Registered(points, nodes) && Registered(points', nodes') && points.keys <= points'.keys
    ensures PositionsKept(nodes, nodes')
  {
    forall k | k in nodes.m
      ensures k in nodes'.m && nodes'.m[k].Pos() == nodes.m[k].Pos()
    {
      var i :| 0 <= i < |nodes.keys| && nodes.keys[i] == k;
      assert k == N(i + 1) && points'.keys[i] == points.keys[i];
      assert nodes'.keys[i] == k;
    }
  }

  /** Changing nodes but not their ids or positions keeps the registrations. */
  lemma RegisteredSameLayout(points: PointMap, nodes: NodeMap, nodes': NodeMap)
    requires Registered(points, nodes)
    requires nodes'.keys == nodes.keys && nodes'.m.Keys == nodes.m.Keys && nodes'.Valid()
    requires forall k :: k in nodes'.m ==> nodes'.m[k].Pos() == nodes.m[k].Pos()
    ensures Registered(points, nodes')
  {
    forall i | 0 <= i < |points.keys|
      ensures N(i + 1) in nodes'.m && nodes'.m[N(i + 1)].Pos() == points.keys[i]
    {
      RegisteredNode(points, nodes, i);
      assert N(i + 1) in nodes'.m.Keys;
    }
  }

  lemma LinesDoneRed(points: PointMap, g: GraphData, lines: seq<Line>, n: nat)
    requires LinesDone(points, g, lines, n) && n < |lines| && IsRed(lines[n].stroke)
    ensures LinesDone(points, g, lines, n + 1)
  {
    assert lines[..n + 1] == lines[..n] + [lines[n]];
    PointsPlacedLater(points.keys, points.keys, lines, n);
  }

  /** The edges after walkable line `n`: those before it, and the edge `a`-`b`
      when `added`. */
  lemma EdgesAfterWalkable(nodes: NodeMap, edges: seq<Edge>, nodes': NodeMap, edges': seq<Edge>,
                           lines: seq<Line>, n: nat, added: bool, a: NodeId, b: NodeId)
    requires n < |lines| && !IsRed(lines[n].stroke)
    requires EdgesFrom(nodes, edges, lines, n) && |edges| <= WalkableCount(lines[..n])
    requires PositionsKept(nodes, nodes')
    requires !added ==> edges' == edges
    requires added ==>
      && edges' == edges + [Edge(a, b)]
      && a in nodes'.m && b in nodes'.m
      && WithinTolerance(nodes'.m[a].Pos(), lines[n].Start())
      && WithinTolerance(nodes'.m[b].Pos(), lines[n].End())
    ensures EdgesFrom(nodes', edges', lines, n + 1) && |edges'| <= WalkableCount(lines[..n + 1])
  {
    assert lines[..n + 1][..n] == lines[..n];
    assert WalkableCount(lines[..n + 1]) == WalkableCount(lines[..n]) + 1;
    EdgesLater(nodes, nodes', edges, lines, n);
    if added {
      assert EdgeFromLine(nodes', Edge(a, b), lines, n + 1);
    }
  }

  /** The state after registering both endpoints of walkable line `n`
      (`points2`, `g2`) and, when `added`, adding the edge `a`-`b` (`g3`). */
  lemma LinesDoneWalkable(points: PointMap, g: GraphData, points2: PointMap, g2: GraphData, g3: GraphData,
                          lines: seq<Line>, n: nat, added: bool, a: NodeId, b: NodeId)
    requires LinesDone(points, g, lines, n) && n < |lines| && !IsRed(lines[n].stroke)
    requires Registered(points2, g2.nodes) && g2.edges == g.edges && Unnamed(g2.nodes)
    requires points.keys <= points2.keys
    requires forall q :: |points.keys| <= q < |points2.keys| ==>
      points2.keys[q] == lines[n].Start() || points2.keys[q] == lines[n].End()
    requires AnyWithin(points2.keys, lines[n].Start()) && AnyWithin(points2.keys, lines[n].End())
    requires g3.nodes.keys == g2.nodes.keys && g3.nodes.m.Keys == g2.nodes.m.Keys && g3.nodes.Valid()
    requires forall k :: k in g3.nodes.m ==> g3.nodes.m[k].Pos() == g2.nodes.m[k].Pos() && g3.nodes.m[k].name == g2.nodes.m[k].name
    requires !added ==> g3.edges == g2.edges
    requires added ==>
      && g3.edges == g2.edges + [Edge(a, b)]
      && a in g2.nodes.m && b in g2.nodes.m
      && WithinTolerance(g2.nodes.m[a].Pos(), lines[n].Start())
      && WithinTolerance(g2.nodes.m[b].Pos(), lines[n].End())
    ensures LinesDone(points2, g3, lines, n + 1)
  {
    PointsPlacedLater(points.keys, points2.keys, lines, n);
    EndpointsNearLater(points.keys, points2.keys, lines, n);
    RegisteredKeepsPositions(points, g.nodes, points2, g2.nodes);
    assert PositionsKept(g.nodes, g3.nodes);
    EdgesAfterWalkable(g.nodes, g.edges, g3.nodes, g3.edges, lines, n, added, a, b);
    RegisteredSameLayout(points2, g2.nodes, g3.nodes);
    assert Unnamed(g3.nodes);
  }

  /** At the end of the line loop the facts about `points` become facts about the graph. */
  lemma LinesDoneFromLines(points: PointMap, g: GraphData, lines: seq<Line>)
    requires LinesDone(points, g, lines, |lines|)
    ensures FromLines(g, lines)
  {
    assert lines[..|lines|] == lines;
    var nodes := g.nodes;
    forall i, j | 0 <= i < j < |nodes.keys|
      ensures !WithinTolerance(NodeAt(nodes, i).Pos(), NodeAt(nodes, j).Pos())
    {
      assert NodeAt(nodes, i).Pos() == points.keys[i] && NodeAt(nodes, j).Pos() == points.keys[j];
    }
    forall k | k in nodes.m
      ensures PlacedByLine(nodes.m[k].Pos(), lines, |lines|)
    {
      var i :| 0 <= i < |nodes.keys| && nodes.keys[i] == k;
      assert nodes.m[k].Pos() == points.keys[i];
    }
    forall j | 0 <= j < |lines| && !IsRed(lines[j].stroke)
      ensures Covered(nodes, lines[j].Start()) && Covered(nodes, lines[j].End())
    {
      var i1 :| 0 <= i1 < |points.keys| && WithinTolerance(points.keys[i1], lines[j].Start());
      var i2 :| 0 <= i2 < |points.keys| && WithinTolerance(points.keys[i2], lines[j].End());
      RegisteredNode(points, nodes, i1);
      RegisteredNode(points, nodes, i2);
    }
  }

  lemma SeparatedLayout(a: NodeMap, b: NodeMap)
    requires Separated(a) && b.Valid() && SameLayout(a, b)
    ensures Separated(b)
  {
    forall i, j | 0 <= i < j < |b.keys|
      ensures !WithinTolerance(NodeAt(b, i).Pos(), NodeAt(b, j).Pos())
    {
      assert b.keys[i] in a.m && b.keys[j] in a.m;
      assert NodeAt(a, i).Pos() == NodeAt(b, i).Pos() && NodeAt(a, j).Pos() == NodeAt(b, j).Pos();
    }
  }

  lemma CoveredLayout(a: NodeMap, b: NodeMap, p: Point)
    requires SameLayout(a, b) && Covered(a, p)
    ensures Covered(b, p)
  {
    var k :| k in a.m && WithinTolerance(a.m[k].Pos(), p);
    assert b.m[k].Pos() == a.m[k].Pos();
  }

  lemma EdgeLayout(a: NodeMap, b: NodeMap, e: Edge, lines: seq<Line>, n: nat)
    requires SameLayout(a, b) && EdgeFromLine(a, e, lines, n)
    ensures EdgeFromLine(b, e, lines, n)
  {
    var j :| 0 <= j < n && j < |lines| && !IsRed(lines[j].stroke) && e.source in a.m && e.target in a.m
      && WithinTolerance(a.m[e.source].Pos(), lines[j].Start())
      && WithinTolerance(a.m[e.target].Pos(), lines[j].End());
    assert b.m[e.source].Pos() == a.m[e.source].Pos() && b.m[e.target].Pos() == a.m[e.target].Pos();
  }

  /** Renaming nodes keeps every fact about the line loop. */
  lemma FromLinesLayout(g: GraphData, g': GraphData, lines: seq<Line>)
    requires FromLines(g, lines) && g'.nodes.Valid() && SameLayout(g.nodes, g'.nodes) && g'.edges == g.edges
    ensures FromLines(g', lines)
  {
    var a, b := g.nodes, g'.nodes;
    SeparatedLayout(a, b);
    forall k | k in b.m
      ensures PlacedByLine(b.m[k].Pos(), lines, |lines|)
    {
      assert a.m[k].Pos() == b.m[k].Pos();
    }
    forall j | 0 <= j < |lines| && !IsRed(lines[j].stroke)
      ensures Covered(b, lines[j].Start()) && Covered(b, lines[j].End())
    {
      CoveredLayout(a, b, lines[j].Start());
      CoveredLayout(a, b, lines[j].End());
    }
    forall e | e in g'.edges
      ensures EdgeFromLine(b, e, lines, |lines|)
    {
      EdgeLayout(a, b, e, lines, |lines|);
    }
  }

  /** Two registrations add at most the two given points, at the end. */
  lemma NewKeys(k0: seq<Point>, k1: seq<Point>, k2: seq<Point>, s: Point, e: Point)
    requires k1 == k0 || k1 == k0 + [s]
    requires k2 == k1 || k2 == k1 + [e]
    ensures k0 <= k2
    ensures forall q :: |k0| <= q < |k2| ==> k2[q] == s || k2[q] == e
  {
  }

  lemma UnnamedPut(nodes: NodeMap, k: NodeId, n: Node)
    requires nodes.Valid() && Unnamed(nodes) && n.name == None
    ensures Unnamed(nodes.Put(k, n))
  {
  }

  /** Registering keeps every node unnamed when all were. */
  lemma RegisterUnnamed(s: LineState, p: Point)
    requires Registered(s.points, s.g.nodes) && Unnamed(s.g.nodes)
    ensures Unnamed(Register(s, p).g.nodes)
  {
    if !AnyWithin(s.points.keys, p) {
      var id := N(|s.points.keys| + 1);
      UnnamedPut(s.g.nodes, id, Node(id, p.x, p.y, [], None));
    }
  }

  /** Registering `p` and then `q`: the earlier points keep their places, only
      `p` and `q` can be new, and both are then within tolerance of a
      registered point. */
  lemma RegisterBoth(s: LineState, p: Point, q: Point)
    requires Registered(s.points, s.g.nodes)
    ensures var r := Register(Register(s, p), q);
      && r.g.edges == s.g.edges
      && s.points.keys <= r.points.keys
      && (forall k :: |s.points.keys| <= k < |r.points.keys| ==> r.points.keys[k] == p || r.points.keys[k] == q)
      && AnyWithin(r.points.keys, p) && AnyWithin(r.points.keys, q)
      && (Unnamed(s.g.nodes) ==> Unnamed(r.g.nodes))
  {
    var s1 := Register(s, p);
    var r := Register(s1, q);
    if Unnamed(s.g.nodes) {
      RegisterUnnamed(s, p);
      RegisterUnnamed(s1, q);
    }
    assert AnyWithin(s1.points.keys, p) by {
      if !AnyWithin(s.points.keys, p) {
        assert s1.points.keys[|s.points.keys|] == p;
      }
    }
    assert AnyWithin(r.points.keys, p) by {
      var j :| 0 <= j < |s1.points.keys| && WithinTolerance(s1.points.keys[j], p);
      assert r.points.keys[j] == s1.points.keys[j];
    }
    assert AnyWithin(r.points.keys, q) by {
      if !AnyWithin(s1.points.keys, q) {
        assert r.points.keys[|s1.points.keys|] == q;
      }
    }
    NewKeys(s.points.keys, s1.points.keys, r.points.keys, p, q);
  }

  /** The two `registerPoint` calls for a walkable line: both endpoints are
      then within tolerance of a registered point, and at most these two
      points are new. */
  method RegisterEndpoints(points: PointMap, graph: Graph, line: Line) returns (points': PointMap)
    requires graph.Valid() && Registered(points, graph.nodes) && Unnamed(graph.nodes)
    modifies graph
    ensures graph.Valid() && Registered(points', graph.nodes) && Unnamed(graph.nodes)
    ensures graph.edges == old(graph.edges)
    ensures points.keys <= points'.keys
    ensures forall q :: |points.keys| <= q < |points'.keys| ==> points'.keys[q] == line.Start() || points'.keys[q] == line.End()
    ensures AnyWithin(points'.keys, line.Start()) && AnyWithin(points'.keys, line.End())
    ensures LineState(points', graph.Data()) == Register(Register(LineState(points, old(graph.Data())), line.Start()), line.End())
  {
    ghost var s0 := LineState(points, graph.Data());
    var points1 := RegisterPoint(points, graph, line.x1, line.y1);
    ghost var s1 := LineState(points1, graph.Data());
    assert s1 == Register(s0, line.Start());
    points' := RegisterPoint(points1, graph, line.x2, line.y2);
    assert LineState(points', graph.Data()) == Register(s1, line.End());
    RegisterBoth(s0, line.Start(), line.End());
  }

  /** What joining the ends does to the graph: nodes, positions and names are
      kept, and either no edge is added or the one edge `a`-`b` between the
      nodes the two endpoints are registered at. */
  lemma JoinEndsStep(points: PointMap, g: GraphData, line: Line) returns (added: bool, a: NodeId, b: NodeId)
    requires Registered(points, g.nodes)
    ensures var g3 := JoinEnds(LineState(points, g), line).g;
      && g3.nodes.keys == g.nodes.keys && g3.nodes.m.Keys == g.nodes.m.Keys && g3.nodes.Valid()
      && (forall k :: k in g3.nodes.m ==> g3.nodes.m[k].Pos() == g.nodes.m[k].Pos() && g3.nodes.m[k].name == g.nodes.m[k].name)
      && (!added ==> g3.edges == g.edges)
      && (added ==>
            && g3.edges == g.edges + [Edge(a, b)]
            && a in g.nodes.m && b in g.nodes.m
            && WithinTolerance(g.nodes.m[a].Pos(), line.Start())
            && WithinTolerance(g.nodes.m[b].Pos(), line.End()))
  {
    var s := LineState(points, g);
    var pa, pb := PointIdOf(points, line.Start()), PointIdOf(points, line.End());
    added, a, b := false, N(0), N(0);
    if pa.Some? && pb.Some? {
      var ia :| FirstWithin(points.keys, line.Start(), ia) && pa.value == points.m[points.keys[ia]];
      var ib :| FirstWithin(points.keys, line.End(), ib) && pb.value == points.m[points.keys[ib]];
      RegisteredNode(points, g.nodes, ia);
      RegisteredNode(points, g.nodes, ib);
      added, a, b := pa.value != pb.value, pa.value, pb.value;
    }
  }

  /** The `findPointId` calls and the `addEdge` call for a walkable line whose
      endpoints are registered. */
  method JoinEndpoints(points: PointMap, graph: Graph, line: Line)
    requires graph.Valid() && Registered(points, graph.nodes)
    modifies graph
    ensures graph.Valid()
    ensures graph.Data() == JoinEnds(LineState(points, old(graph.Data())), line).g
  {
    var a := FindPointId(points, line.x1, line.y1);
    var b := FindPointId(points, line.x2, line.y2);
    if a.Some? && b.Some? {
      IdRegistered(points, graph.nodes, line.Start());
      IdRegistered(points, graph.nodes, line.End());
      graph.AddEdge(a.value, b.value);
    }
  }

  /** One walkable line of the line loop: registers both endpoints and joins the
      nodes they are registered at. */
  method AddWalkableLine(points: PointMap, graph: Graph, lines: seq<Line>, i: nat) returns (points': PointMap)
    requires graph.Valid() && LinesDone(points, graph.Data(), lines, i)
    requires i < |lines| && !IsRed(lines[i].stroke)
    modifies graph
    ensures graph.Valid() && LinesDone(points', graph.Data(), lines, i + 1)
    ensures LineState(points', graph.Data()) == LineStep(LineState(points, old(graph.Data())), lines[i])
  {
    var line := lines[i];
    ghost var g0 := graph.Data();
    points' := RegisterEndpoints(points, graph, line);
    ghost var g2 := graph.Data();
    JoinEndpoints(points', graph, line);
    ghost var added, a, b := JoinEndsStep(points', g2, line);
    LinesDoneWalkable(points, g0, points', g2, graph.Data(), lines, i, added, a, b);
  }

  /** One step of the `<line>` loop: a red line is a wall, any other line an edge. */
  method AddLine(points: PointMap, graph: Graph, walls: seq<Wall>, lines: seq<Line>, i: nat)
    returns (points': PointMap, walls': seq<Wall>)
    requires graph.Valid() && LinesDone(points, graph.Data(), lines, i) && i < |lines|
    requires walls == LineWalls(lines[..i])
    modifies graph
    ensures graph.Valid() && LinesDone(points', graph.Data(), lines, i + 1)
    ensures walls' == LineWalls(lines[..i + 1])
    ensures LineState(points', graph.Data()) == LineStep(LineState(points, old(graph.Data())), lines[i])
  {
    var line := lines[i];
    assert lines[..i + 1][..i] == lines[..i];
    if IsRed(line.stroke) {
      points', walls' := points, walls + [LineWall(line.x1, line.y1, line.x2, line.y2)];
      LinesDoneRed(points, graph.Data(), lines, i);
    } else {
      walls' := walls;
      points' := AddWalkableLine(points, graph, lines, i);
    }
  }

  lemma LinesDoneStart(g: GraphData, lines: seq<Line>)
    requires g.nodes == Empty() && g.edges == []
    ensures LinesDone(Empty(), g, lines, 0)
  {
    assert lines[..0] == [];
  }

  /** The `<line>` loop: walls for the red lines, the graph for the others. */
  method AddLines(lines: seq<Line>) returns (graph: Graph, walls: seq<Wall>)
    ensures fresh(graph)
    ensures graph.Valid() && FromLines(graph.Data(), lines) && Unnamed(graph.nodes)
    ensures walls == LineWalls(lines)
    ensures graph.Data() == LinesFold(lines).g
  {
    graph := new Graph();
    var points: PointMap := Empty();
    walls := [];
    LinesDoneStart(graph.Data(), lines);
    var i := 0;
    while i < |lines|
      invariant 0 <= i <= |lines|
      invariant graph.Valid()
      invariant LinesDone(points, graph.Data(), lines, i)
      invariant walls == LineWalls(lines[..i])
      invariant LineState(points, graph.Data()) == LinesFold(lines[..i])
    {
      LinesFoldSnoc(lines, i);
      points, walls := AddLine(points, graph, walls, lines, i);
      i := i + 1;
    }
    assert lines[..|lines|] == lines;
    LinesDoneFromLines(points, graph.Data(), lines);
  }

  /** The `<path>` loop: appends a wall for each red path with a non-blank `d`. */
  method AddPathWalls(walls: seq<Wall>, paths: seq<PathElement>) returns (walls': seq<Wall>)
    ensures walls' == walls + PathWalls(paths)
  {
    walls' := walls;
    var i := 0;
    while i < |paths|
      invariant 0 <= i <= |paths|
      invariant walls' == walls + PathWalls(paths[..i])
    {
      var path := paths[i];
      assert paths[..i + 1][..i] == paths[..i];
      if IsRed(path.stroke) && IsDrawn(path.d) {
        walls' := walls' + [PathWall(path.d)];
      }
      i := i + 1;
    }
    assert paths[..|paths|] == paths;
  }

  /** Renaming the one node a label names to the label's trimmed text takes
      every node's name from the labels before it to the labels up to it. */
  lemma RenameStep(nodes: NodeMap, before: NodeMap, after: NodeMap, texts: seq<TextElement>, t: TextElement, c: NodeId)
    requires nodes.Valid() && before.Valid() && c in before.m && t.tspan.Some?
    requires after == before.Put(c, before.m[c].(name := Some(Trim(t.tspan.value.text))))
    requires forall k :: Names(nodes, t, k) <==> k == c
    requires forall k :: k in before.m ==> before.m[k].name == LabelName(nodes, texts, k)
    ensures forall k :: k in after.m ==> after.m[k].name == LabelName(nodes, texts + [t], k)
  {
    forall k | k in after.m
      ensures after.m[k].name == LabelName(nodes, texts + [t], k)
    {
      LabelNameStep(nodes, texts, t, k);
      assert after.Get(k) == Some(after.m[k]);
      if k != c {
        assert before.Get(k) == Some(after.m[k]);
      }
    }
  }

  /** Renaming one node keeps the layout. */
  lemma RenameLayout(a: NodeMap, before: NodeMap, after: NodeMap, c: NodeId, name: string)
    requires before.Valid() && c in before.m && SameLayout(a, before)
    requires after == before.Put(c, before.m[c].(name := Some(name)))
    ensures SameLayout(a, after)
  {
    forall k | k in a.m
      ensures a.m[k].id == after.m[k].id && a.m[k].x == after.m[k].x && a.m[k].y == after.m[k].y
      ensures a.m[k].edges == after.m[k].edges
    {
      assert after.Get(k) == Some(after.m[k]);
      if k != c {
        assert before.Get(k) == Some(after.m[k]);
      }
    }
  }

  /** A label that names leaf `c`: `closest.name = text.trim()`. */
  method NameLeaf(graph: Graph, ghost g0: GraphData, texts: seq<TextElement>, i: nat, c: NodeId)
    requires i < |texts| && g0.nodes.Valid() && texts[i].tspan.Some?
    requires graph.Valid() && SameLayout(g0.nodes, graph.nodes) && graph.edges == g0.edges
    requires c in graph.nodes.m && forall k :: Names(g0.nodes, texts[i], k) <==> k == c
    requires forall k :: k in graph.nodes.m ==> graph.nodes.m[k].name == LabelName(g0.nodes, texts[..i], k)
    modifies graph
    ensures graph.Valid() && SameLayout(g0.nodes, graph.nodes) && graph.edges == g0.edges
    ensures forall k :: k in graph.nodes.m ==> graph.nodes.m[k].name == LabelName(g0.nodes, texts[..i + 1], k)
  {
    var text := texts[i];
    assert texts[..i + 1] == texts[..i] + [text];
    var name := Trim(text.tspan.value.text);
    ghost var before := graph.nodes;
    graph.SetName(c, name);
    RenameStep(g0.nodes, before, graph.nodes, texts[..i], text, c);
    RenameLayout(g0.nodes, before, graph.nodes, c, name);
  }

  /** One label of the `<text>` loop: names the closest leaf, if any. */
  method ApplyLabel(graph: Graph, ghost g0: GraphData, texts: seq<TextElement>, i: nat)
    requires i < |texts| && g0.nodes.Valid()
    requires graph.Valid() && SameLayout(g0.nodes, graph.nodes) && graph.edges == g0.edges
    requires forall k :: k in graph.nodes.m ==> graph.nodes.m[k].name == LabelName(g0.nodes, texts[..i], k)
    modifies graph
    ensures graph.Valid() && SameLayout(g0.nodes, graph.nodes) && graph.edges == g0.edges
    ensures forall k :: k in graph.nodes.m ==> graph.nodes.m[k].name == LabelName(g0.nodes, texts[..i + 1], k)
  {
    var text := texts[i];
    if IsRed(text.fill) || text.tspan.None? {
      assert texts[..i + 1] == texts[..i] + [text];
      forall k | k in graph.nodes.m
        ensures graph.nodes.m[k].name == LabelName(g0.nodes, texts[..i + 1], k)
      {
        UnmatchedLabelNamesNothing(g0.nodes, texts[..i], text, k);
      }
      return;
    }
    var tspan := text.tspan.value;
    var closest := ClosestLeaf(graph.nodes, tspan.Pos());
    forall k
      ensures Names(g0.nodes, text, k) <==> closest == Some(k)
    {
      ClosestLayout(g0.nodes, graph.nodes, tspan.Pos(), k);
    }
    if closest.Some? {
      var c := closest.value;
      assert c in graph.nodes.m by {
        var j :| 0 <= j < |graph.nodes.keys| && graph.nodes.keys[j] == c && ClosestAt(graph.nodes, tspan.Pos(), j);
        assert graph.nodes.keys[j] in graph.nodes.keys;
      }
      NameLeaf(graph, g0, texts, i, c);
    } else {
      assert texts[..i + 1] == texts[..i] + [text];
      forall k | k in graph.nodes.m
        ensures graph.nodes.m[k].name == LabelName(g0.nodes, texts[..i + 1], k)
      {
        LabelNameStep(g0.nodes, texts[..i], text, k);
      }
    }
  }

  /** `parseLinesToGraph` on the elements of one floor's drawing, in document
      order: returns a fresh graph built from the walkable lines and named by
      the labels, and the walls drawn in red. */
  method ParseLinesToGraph(lines: seq<Line>, paths: seq<PathElement>, texts: seq<TextElement>)
    returns (graph: Graph, walls: seq<Wall>)
    ensures fresh(graph)
    ensures walls == WallsOf(lines, paths)
    ensures BuiltFrom(graph.Data(), lines, texts)
  {
    graph, walls := AddLines(lines);
    walls := AddPathWalls(walls, paths);

    ghost var g0 := graph.Data();
    var i := 0;
    while i < |texts|
      invariant 0 <= i <= |texts|
      invariant graph.Valid() && SameLayout(g0.nodes, graph.nodes) && graph.edges == g0.edges
      invariant forall k :: k in graph.nodes.m ==> graph.nodes.m[k].name == LabelName(g0.nodes, texts[..i], k)
    {
      ApplyLabel(graph, g0, texts, i);
      i := i + 1;
    }
    assert texts[..|texts|] == texts;
    FromLinesLayout(g0, graph.Data(), lines);
    forall k | k in graph.nodes.m
      ensures graph.nodes.m[k].name == LabelName(graph.nodes, texts, k)
    {
      LabelNameLayout(g0.nodes, graph.nodes, texts, k);
    }
  }
}
