/** One floor's graph: the `Graph` class of script.js (nodes in insertion
    order, an edge list, and per-node adjacency lists that keep duplicates). */
module FloorGraph {
  import opened Wrappers
  import opened OrderedMaps
  import opened Geometry

  /** Node ids are the strings `N1`, `N2`, ...; `N(k)` stands for `"N"`
      followed by `k` in decimal. */
  datatype NodeId = N(index: nat)

  /** A node record `{ id, x, y, edges, name }`; `edges` is its adjacency list. */
  datatype Node = Node(id: NodeId, x: int, y: int, edges: seq<NodeId>, name: Option<string>) {
    function Pos(): Point {
      Point(x, y)
    }

    /** A leaf has exactly one adjacency entry (`n.edges.length === 1`). */
    predicate IsLeaf() {
      |edges| == 1
    }
  }

  /** An entry `{ source, target }` of the graph's edge list. */
  datatype Edge = Edge(source: NodeId, target: NodeId)

  type NodeMap = OrderedMap<NodeId, Node>

  /** The node at index `i` of `nodes.keys`, i.e. the `i`-th node inserted. */
  function NodeAt(nodes: NodeMap, i: nat): Node
    requires nodes.Valid() && i < |nodes.keys|
  {
    nodes.m[nodes.keys[i]]
  }

  /** The value of a `Graph` object: its `nodes` map and its `edges` array. */
  datatype GraphData = GraphData(nodes: NodeMap, edges: seq<Edge>)

  predicate Joins(e: Edge, a: NodeId, b: NodeId) {
    (e.source == a && e.target == b) || (e.source == b && e.target == a)
  }

  /** How many entries of the edge list join `a` and `b`, in either direction. */
  function EdgeCount(edges: seq<Edge>, a: NodeId, b: NodeId): nat {
    if edges == [] then 0
    else EdgeCount(edges[..|edges| - 1], a, b) + (if Joins(edges[|edges| - 1], a, b) then 1 else 0)
  }

  /** What every graph built by the program satisfies: ids are the keys, adjacency
      lists only name nodes of the graph, no edge joins a node to itself, and each
      adjacency list holds `b` exactly as often as the edge list joins `a` and `b`. */
  ghost predicate WellFormed(g: GraphData) {
    && g.nodes.Valid()
    && (forall k :: k in g.nodes.m ==> g.nodes.m[k].id == k)
    && (forall k, t :: k in g.nodes.m && t in g.nodes.m[k].edges ==> t in g.nodes.m)
    && (forall e :: e in g.edges ==> e.source != e.target && e.source in g.nodes.m && e.target in g.nodes.m)
    && (forall a, b :: a in g.nodes.m && b in g.nodes.m ==>
          multiset(g.nodes.m[a].edges)[b] == EdgeCount(g.edges, a, b))
  }

  /** The two maps hold the same nodes, in the same order, at the same positions
      and with the same adjacency; only names may differ. */
  ghost predicate SameLayout(a: NodeMap, b: NodeMap) {
    && a.keys == b.keys
    && a.m.Keys == b.m.Keys
    && (forall k :: k in a.m ==>
          && a.m[k].id == b.m[k].id && a.m[k].x == b.m[k].x && a.m[k].y == b.m[k].y
          && a.m[k].edges == b.m[k].edges)
  }

  lemma EdgeCountAppend(edges: seq<Edge>, e: Edge, a: NodeId, b: NodeId)
    ensures EdgeCount(edges + [e], a, b) == EdgeCount(edges, a, b) + (if Joins(e, a, b) then 1 else 0)
  {
    assert (edges + [e])[..|edges|] == edges;
  }

  lemma {:induction false} EdgeCountSymmetric(edges: seq<Edge>, a: NodeId, b: NodeId)
    ensures EdgeCount(edges, a, b) == EdgeCount(edges, b, a)
  {
    if edges != [] {
      EdgeCountSymmetric(edges[..|edges| - 1], a, b);
    }
  }

  lemma {:induction false} EdgeCountSelf(edges: seq<Edge>, a: NodeId)
    requires forall e :: e in edges ==> e.source != e.target
    ensures EdgeCount(edges, a, a) == 0
  {
    if edges != [] {
      assert edges[|edges| - 1] in edges;
      var init := edges[..|edges| - 1];
      assert forall e :: e in init ==> e in edges;
      EdgeCountSelf(init, a);
    }
  }

  lemma {:induction false} EdgeCountUntouched(edges: seq<Edge>, c: NodeId, a: NodeId, b: NodeId)
    requires forall e :: e in edges ==> e.source != c && e.target != c
    requires a == c || b == c
    ensures EdgeCount(edges, a, b) == 0
  {
    if edges != [] {
      assert edges[|edges| - 1] in edges;
      var init := edges[..|edges| - 1];
      assert forall e :: e in init ==> e in edges;
      EdgeCountUntouched(init, c, a, b);
    }
  }

  /** Adjacency is symmetric: `a` lists `b` exactly as often as `b` lists `a`. */
  lemma AdjacencySymmetric(g: GraphData, a: NodeId, b: NodeId)
    requires WellFormed(g) && a in g.nodes.m && b in g.nodes.m
    ensures multiset(g.nodes.m[a].edges)[b] == multiset(g.nodes.m[b].edges)[a]
    ensures b in g.nodes.m[a].edges <==> a in g.nodes.m[b].edges
  {
    EdgeCountSymmetric(g.edges, a, b);
  }

  /** No node is adjacent to itself. */
  lemma NoSelfLoops(g: GraphData, a: NodeId)
    requires WellFormed(g) && a in g.nodes.m
    ensures a !in g.nodes.m[a].edges
  {
    EdgeCountSelf(g.edges, a);
  }

  /** The adjacency update of `addEdge`: `b` appended to `a`'s list, then `a`
      to `b`'s; every other node and the key order stay as they were. */
  function Link(nodes: NodeMap, a: NodeId, b: NodeId): (r: NodeMap)
    requires nodes.Valid() && a in nodes.m && b in nodes.m && a != b
    ensures r.Valid() && r.keys == nodes.keys && r.m.Keys == nodes.m.Keys
    ensures r.m[a] == nodes.m[a].(edges := nodes.m[a].edges + [b])
    ensures r.m[b] == nodes.m[b].(edges := nodes.m[b].edges + [a])
    ensures forall k :: k != a && k != b ==> r.Get(k) == nodes.Get(k)
    ensures forall k :: k in r.m ==> r.m[k].Pos() == nodes.m[k].Pos() && r.m[k].name == nodes.m[k].name
  {
    var once := nodes.Put(a, nodes.m[a].(edges := nodes.m[a].edges + [b]));
    assert once.Get(b) == nodes.Get(b);
    once.Put(b, once.m[b].(edges := once.m[b].edges + [a]))
  }

  /** Linking two distinct nodes of a well-formed graph and recording the edge
      keeps the graph well formed. */
  lemma LinkWellFormed(g: GraphData, a: NodeId, b: NodeId)
    requires WellFormed(g) && a in g.nodes.m && b in g.nodes.m && a != b
    ensures WellFormed(GraphData(Link(g.nodes, a, b), g.edges + [Edge(a, b)]))
  {
    var linked := Link(g.nodes, a, b);
    forall k | k in linked.m
      ensures linked.m[k].id == k
      ensures forall t :: t in linked.m[k].edges ==> t in linked.m
    {
      LinkNode(g, a, b, k);
    }
    forall x, y | x in linked.m && y in linked.m
      ensures multiset(linked.m[x].edges)[y] == EdgeCount(g.edges + [Edge(a, b)], x, y)
    {
      LinkCount(g, a, b, x, y);
    }
  }

  lemma LinkNode(g: GraphData, a: NodeId, b: NodeId, k: NodeId)
    requires WellFormed(g) && a in g.nodes.m && b in g.nodes.m && a != b && k in g.nodes.m
    ensures Link(g.nodes, a, b).m[k].id == k
    ensures forall t :: t in Link(g.nodes, a, b).m[k].edges ==> t in g.nodes.m
  {
    var linked := Link(g.nodes, a, b);
    assert linked.Get(k) == Some(linked.m[k]);
    if k != a && k != b {
      assert g.nodes.Get(k) == Some(linked.m[k]);
    }
  }

  lemma LinkCount(g: GraphData, a: NodeId, b: NodeId, x: NodeId, y: NodeId)
    requires WellFormed(g) && a in g.nodes.m && b in g.nodes.m && a != b && x in g.nodes.m && y in g.nodes.m
    ensures multiset(Link(g.nodes, a, b).m[x].edges)[y] == EdgeCount(g.edges + [Edge(a, b)], x, y)
  {
    var linked := Link(g.nodes, a, b);
    EdgeCountAppend(g.edges, Edge(a, b), x, y);
    assert linked.Get(x) == Some(linked.m[x]);
    if x != a && x != b {
      assert g.nodes.Get(x) == Some(linked.m[x]);
    }
  }

  class Graph {
    var nodes: NodeMap
    var edges: seq<Edge>

    function Data(): GraphData
      reads this
    {
      GraphData(nodes, edges)
    }

    ghost predicate Valid()
      reads this
    {
      WellFormed(Data())
    }

    constructor ()
      ensures Valid() && nodes == Empty() && edges == []
    {
      nodes := Empty();
      edges := [];
    }

    /** `addNode`: stores a fresh unnamed node with no adjacency under `id`. */
    method AddNode(id: NodeId, x: int, y: int)
      requires nodes.Valid()
      modifies this
      ensures nodes == old(nodes).Put(id, Node(id, x, y, [], None))
      ensures edges == old(edges)
      ensures old(Valid()) && id !in old(nodes.m) ==> Valid()
    {
      nodes := nodes.Put(id, Node(id, x, y, [], None));
      forall a, b | a in nodes.m && b in nodes.m && old(Valid()) && id !in old(nodes.m)
        ensures multiset(nodes.m[a].edges)[b] == EdgeCount(edges, a, b)
      {
        if a == id || b == id {
          EdgeCountUntouched(edges, id, a, b);
        }
      }
    }

    /** `addEdge`: for distinct `a` and `b`, records the edge and appends each end
        to the other's adjacency list; for `a == b` it does nothing. */
    method AddEdge(a: NodeId, b: NodeId)
      requires Valid() && a in nodes.m && b in nodes.m
      modifies this
      ensures Valid()
      ensures nodes.keys == old(nodes.keys) && nodes.m.Keys == old(nodes.m.Keys)
      ensures a == b ==> nodes == old(nodes) && edges == old(edges)
      ensures a != b ==> edges == old(edges) + [Edge(a, b)] && nodes == Link(old(nodes), a, b)
      ensures a != b ==> nodes.m[a] == old(nodes.m[a]).(edges := old(nodes.m[a].edges) + [b])
      ensures a != b ==> nodes.m[b] == old(nodes.m[b]).(edges := old(nodes.m[b].edges) + [a])
      ensures forall k :: k != a && k != b ==> nodes.Get(k) == old(nodes.Get(k))
      ensures forall k :: k in nodes.m ==> nodes.m[k].Pos() == old(nodes.m[k].Pos()) && nodes.m[k].name == old(nodes.m[k].name)
    {
      if a != b {
        LinkWellFormed(Data(), a, b);
        nodes := Link(nodes, a, b);
        edges := edges + [Edge(a, b)];
      }
    }

    /** `closest.name = name`: renames one node and changes nothing else. */
    method SetName(id: NodeId, name: string)
      requires Valid() && id in nodes.m
      modifies this
      ensures Valid()
      ensures nodes == old(nodes).Put(id, old(nodes.m[id]).(name := Some(name)))
      ensures edges == old(edges)
    {
      nodes := nodes.Put(id, nodes.m[id].(name := Some(name)));
    }
  }
}
