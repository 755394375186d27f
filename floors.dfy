/** The building: the floors registered so far, in registration order, and
    what `getAllNodes` and `getStartNode` read off them. */
module Floors {
  import opened Wrappers
  import opened OrderedMaps
  import opened FloorGraph
  import opened Drawing

  /** A floor record `{ graph, svgContent, stairs, walls }`; `drawing` is the
      parsed drawing with only its red labels left (what `outerHTML`
      serialises). */
  datatype FloorData = FloorData(graph: GraphData, drawing: Svg, stairs: seq<Node>, walls: seq<Wall>)

  /** `this.floors`: floor id -> floor record, in insertion order. */
  type FloorMap = OrderedMap<string, FloorData>

  ghost predicate FloorsValid(floors: FloorMap) {
    && floors.Valid()
    && forall f :: f in floors.m ==> WellFormed(floors.m[f].graph)
  }

  /** The floor record registered `i`-th. */
  function FloorAt(floors: FloorMap, i: nat): FloorData
    requires floors.Valid() && i < |floors.keys|
  {
    floors.m[floors.keys[i]]
  }

  // ---------------------------------------------------------------------
  // getAllNodes

  /** `{ ...node, floor: floorId }`. */
  datatype TaggedNode = TaggedNode(node: Node, floor: string)

  /** One floor's part of the list: its nodes in insertion order, tagged. */
  function FloorNodes(floorId: string, nodes: NodeMap): (r: seq<TaggedNode>)
    requires nodes.Valid()
    ensures |r| == |nodes.keys|
  {
    seq(|nodes.keys|, i requires 0 <= i < |nodes.keys| => TaggedNode(nodes.m[nodes.keys[i]], floorId))
  }

  /** The list for the first `n` floors. */
  function NodesOfFloors(floors: FloorMap, n: nat): seq<TaggedNode>
    requires FloorsValid(floors) && n <= |floors.keys|
  {
    if n == 0 then []
    else
      var f := floors.keys[n - 1];
      assert f in floors.keys;
      NodesOfFloors(floors, n - 1) + FloorNodes(f, floors.m[f].graph.nodes)
  }

  /** What `getAllNodes` returns: floor by floor, each floor's nodes in order. */
  function AllNodes(floors: FloorMap): seq<TaggedNode>
    requires FloorsValid(floors)
  {
    NodesOfFloors(floors, |floors.keys|)
  }

  lemma FloorNodesMembers(f: string, nodes: NodeMap, t: TaggedNode)
    requires nodes.Valid()
    ensures t in FloorNodes(f, nodes) <==> t.floor == f && HasNode(nodes, t.node)
  {
    if t.floor == f && HasNode(nodes, t.node) {
      var k :| k in nodes.m && nodes.m[k] == t.node;
      var j :| 0 <= j < |nodes.keys| && nodes.keys[j] == k;
      assert FloorNodes(f, nodes)[j] == t;
    }
    if t in FloorNodes(f, nodes) {
      var j :| 0 <= j < |nodes.keys| && FloorNodes(f, nodes)[j] == t;
      assert nodes.keys[j] in nodes.keys;
    }
  }

  /** The node of `t` belongs to one of the first `n` floors, the one named
      by its tag. */
  ghost predicate OnFloors(floors: FloorMap, n: nat, t: TaggedNode)
    requires floors.Valid() && n <= |floors.keys|
  {
    exists i :: 0 <= i < n && floors.keys[i] == t.floor && HasNode(FloorAt(floors, i).graph.nodes, t.node)
  }

  lemma OnFloorsStep(floors: FloorMap, n: nat, t: TaggedNode)
    requires floors.Valid() && 0 < n <= |floors.keys|
    ensures OnFloors(floors, n, t) <==>
      OnFloors(floors, n - 1, t) || (floors.keys[n - 1] == t.floor && HasNode(FloorAt(floors, n - 1).graph.nodes, t.node))
  {
    if OnFloors(floors, n, t) {
      var i :| 0 <= i < n && floors.keys[i] == t.floor && HasNode(FloorAt(floors, i).graph.nodes, t.node);
      if i < n - 1 {
        assert OnFloors(floors, n - 1, t);
      }
    }
  }

  /** A tagged node is listed exactly when its floor is one of the first `n`
      and the node belongs to that floor's graph. */
  lemma {:induction false} NodesOfFloorsMembers(floors: FloorMap, n: nat, t: TaggedNode)
    requires FloorsValid(floors) && n <= |floors.keys|
    ensures t in NodesOfFloors(floors, n) <==> OnFloors(floors, n, t)
  {
    if n > 0 {
      NodesOfFloorsMembers(floors, n - 1, t);
      OnFloorsStep(floors, n, t);
      var f := floors.keys[n - 1];
      assert f in floors.keys;
      assert NodesOfFloors(floors, n) == NodesOfFloors(floors, n - 1) + FloorNodes(f, floors.m[f].graph.nodes);
      FloorNodesMembers(f, floors.m[f].graph.nodes, t);
    }
  }

  /** `n` is one of the node records of `nodes`. */
  ghost predicate HasNode(nodes: NodeMap, n: Node) {
    exists k :: k in nodes.m && nodes.m[k] == n
  }

  /** `getAllNodes` lists a tagged node exactly when its floor is registered
      and the node belongs to that floor's graph. */
  lemma AllNodesMembers(floors: FloorMap, t: TaggedNode)
    requires FloorsValid(floors)
    ensures t in AllNodes(floors) <==> t.floor in floors.m && HasNode(floors.m[t.floor].graph.nodes, t.node)
  {
    NodesOfFloorsMembers(floors, |floors.keys|, t);
    if t.floor in floors.m {
      var i :| 0 <= i < |floors.keys| && floors.keys[i] == t.floor;
      assert FloorAt(floors, i) == floors.m[t.floor];
    }
    if OnFloors(floors, |floors.keys|, t) {
      var i :| 0 <= i < |floors.keys| && floors.keys[i] == t.floor && HasNode(FloorAt(floors, i).graph.nodes, t.node);
      assert floors.keys[i] in floors.keys;
    }
  }

  // ---------------------------------------------------------------------
  // getStartNode

  /** `{ floor, id }` */
  datatype StartPoint = StartPoint(floor: string, id: NodeId)

  /** The reserved name of the start node. */
  const StartMarker: string := "0"

  /** Node `j` of floor `i` carries the start marker. */
  ghost predicate StartAt(floors: FloorMap, i: nat, j: nat)
    requires FloorsValid(floors)
  {
    && i < |floors.keys|
    && j < |FloorAt(floors, i).graph.nodes.keys|
    && NodeAt(FloorAt(floors, i).graph.nodes, j).name == Some(StartMarker)
  }

  /** Floor `i`, node `j` comes before floor `i'`, node `j'` in the order of the
      nested iteration: floors first, then nodes. */
  predicate Before(i: nat, j: nat, i': nat, j': nat) {
    i < i' || (i == i' && j < j')
  }

  /** The start node `getStartNode` reports: the first node, in floor-then-node
      order, that carries the marker. */
  ghost predicate FirstStart(floors: FloorMap, r: StartPoint)
    requires FloorsValid(floors)
  {
    exists i: nat, j: nat ::
      && StartAt(floors, i, j)
      && r == StartPoint(floors.keys[i], NodeAt(FloorAt(floors, i).graph.nodes, j).id)
      && forall i': nat, j': nat :: Before(i', j', i, j) ==> !StartAt(floors, i', j')
  }
}
