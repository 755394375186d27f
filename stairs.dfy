/** Stair nodes and the two building-wide indexes built from them: the
    canonical position of each stairway name (`stairCoordinates`, checked by
    `validateStairs`) and, per stairway name, the stair node on each floor
    (`stairConnections`, filled by `updateStairConnections`). The methods that
    update these fields belong to `MultiFloorGraph`; here are the functions
    that specify them. */
module Stairs {
  import opened Wrappers
  import opened OrderedMaps
  import opened Geometry
  import opened JsText
  import opened FloorGraph

  /** A stair is a node whose name starts with `L` (`node.name?.startsWith('L')`). */
  predicate IsStair(n: Node) {
    n.name.Some? && StartsWith(n.name.value, "L")
  }

  predicate AllStairs(stairs: seq<Node>) {
    forall i :: 0 <= i < |stairs| ==> IsStair(stairs[i])
  }

  lemma AllStairsTail(stairs: seq<Node>)
    requires AllStairs(stairs) && |stairs| > 0
    ensures IsStair(stairs[0]) && AllStairs(stairs[1..])
  {
    forall i | 0 <= i < |stairs| - 1 ensures IsStair(stairs[1..][i]) { assert stairs[1..][i] == stairs[i + 1]; }
  }

  /** `graph.nodes.values()`: the node records in insertion order. */
  function Values(nodes: NodeMap): (r: seq<Node>)
    requires nodes.Valid()
    ensures |r| == |nodes.keys|
  {
    seq(|nodes.keys|, i requires 0 <= i < |nodes.keys| => nodes.m[nodes.keys[i]])
  }

  /** `.filter(node => node.name?.startsWith('L'))`. */
  function StairFilter(ns: seq<Node>): seq<Node> {
    if ns == [] then []
    else StairFilter(ns[..|ns| - 1]) + (if IsStair(ns[|ns| - 1]) then [ns[|ns| - 1]] else [])
  }

  /** `extractStairs`: the stair nodes of a graph, in insertion order. */
  function ExtractStairs(nodes: NodeMap): (r: seq<Node>)
    requires nodes.Valid()
    ensures AllStairs(r)
  {
    StairFilterMembers(Values(nodes));
    StairFilter(Values(nodes))
  }

  lemma {:induction false} StairFilterMembers(ns: seq<Node>)
    ensures forall n :: n in StairFilter(ns) <==> n in ns && IsStair(n)
  {
    if ns != [] {
      StairFilterMembers(ns[..|ns| - 1]);
      assert ns == ns[..|ns| - 1] + [ns[|ns| - 1]];
    }
  }

  /** The filter keeps order: it distributes over concatenation, and keeps a
      single node exactly when it is a stair. */
  lemma {:induction false} StairFilterAppend(a: seq<Node>, b: seq<Node>)
    ensures StairFilter(a + b) == StairFilter(a) + StairFilter(b)
  {
    if b == [] {
      assert a + b == a;
    } else {
      var b' := b[..|b| - 1];
      assert (a + b)[..|a + b| - 1] == a + b';
      StairFilterAppend(a, b');
    }
  }

  lemma StairFilterSingle(n: Node)
    ensures StairFilter([n]) == if IsStair(n) then [n] else []
  {
    assert [n][..0] == [];
  }

  /** A node is extracted exactly when it is a stair of the graph. */
  lemma ExtractStairsMembers(nodes: NodeMap, s: Node)
    requires nodes.Valid()
    ensures s in ExtractStairs(nodes) <==> IsStair(s) && exists k :: k in nodes.m && nodes.m[k] == s
  {
    StairFilterMembers(Values(nodes));
    if exists k :: k in nodes.m && nodes.m[k] == s {
      var k :| k in nodes.m && nodes.m[k] == s;
      var i :| 0 <= i < |nodes.keys| && nodes.keys[i] == k;
      assert Values(nodes)[i] == s;
    }
    if s in Values(nodes) {
      var i :| 0 <= i < |Values(nodes)| && Values(nodes)[i] == s;
      assert nodes.keys[i] in nodes.keys;
    }
  }

  // ---------------------------------------------------------------------
  // validateStairs

  /** `stairCoordinates`: stairway name -> canonical position. Only looked up,
      never iterated, so its insertion order is not kept. */
  type Coordinates = map<string, Point>

  /** The verdict of `validateStairs` and the coordinates it leaves behind.
      Stairs are taken in order; a name seen for the first time is recorded
      at this stair's position; a name already recorded must lie within the
      tolerance of its record, and the first one that does not ends the run
      with `false`, keeping what was recorded so far. */
  function CheckStairs(coords: Coordinates, stairs: seq<Node>): (bool, Coordinates)
    requires AllStairs(stairs)
    decreases |stairs|
  {
    if stairs == [] then (true, coords)
    else
      var s := stairs[0];
      var name := s.name.value;
      if name !in coords then CheckStairs(coords[name := s.Pos()], stairs[1..])
      else if !WithinTolerance(coords[name], s.Pos()) then (false, coords)
      else CheckStairs(coords, stairs[1..])
  }

  /** The index of the first stair named `name`, or `|stairs|` when none is. */
  function FirstNamed(stairs: seq<Node>, name: string): (r: nat)
    ensures r <= |stairs|
    ensures r < |stairs| ==> stairs[r].name == Some(name)
    ensures forall j :: 0 <= j < r ==> stairs[j].name != Some(name)
  {
    if stairs == [] then 0
    else if stairs[0].name == Some(name) then 0
    else 1 + FirstNamed(stairs[1..], name)
  }

  /** The position stair `i` is checked against: the record made before the
      call, or else the position of the first stair of this call with its name. */
  function Canonical(coords: Coordinates, stairs: seq<Node>, i: nat): Point
    requires AllStairs(stairs) && i < |stairs|
  {
    var name := stairs[i].name.value;
    if name in coords then coords[name]
    else stairs[FirstNamed(stairs, name)].Pos()
  }

  /** Dropping the first stair: the canonical positions of the others are those
      computed from the coordinates after the first stair's step. */
  lemma CanonicalTail(coords: Coordinates, stairs: seq<Node>, i: nat)
    requires AllStairs(stairs) && 0 < i < |stairs|
    ensures AllStairs(stairs[1..])
    ensures var name := stairs[0].name.value;
      var coords' := if name in coords then coords else coords[name := stairs[0].Pos()];
      Canonical(coords, stairs, i) == Canonical(coords', stairs[1..], i - 1)
  {
    assert stairs[1..][i - 1] == stairs[i];
    assert stairs[i] in stairs;
    var name := stairs[i].name.value;
    if stairs[0].name != Some(name) {
      assert FirstNamed(stairs, name) == 1 + FirstNamed(stairs[1..], name);
    }
  }

  /** `validateStairs` succeeds exactly when every stair lies within the
      tolerance of its canonical position. */
  lemma {:induction false} CheckStairsVerdict(coords: Coordinates, stairs: seq<Node>)
    requires AllStairs(stairs)
    ensures CheckStairs(coords, stairs).0 <==>
      forall i :: 0 <= i < |stairs| ==> WithinTolerance(Canonical(coords, stairs, i), stairs[i].Pos())
    decreases |stairs|
  {
    if stairs != [] {
      var s := stairs[0];
      var name := s.name.value;
      var coords' := if name in coords then coords else coords[name := s.Pos()];
      AllStairsTail(stairs);
      assert Canonical(coords, stairs, 0) == coords'[name];
      if name in coords && !WithinTolerance(coords[name], s.Pos()) {
      } else {
        CheckStairsVerdict(coords', stairs[1..]);
        WithinTail(coords, stairs);
      }
    }
  }

  /** The stairs after the first are within tolerance of their canonical
      positions exactly when the rest of the run is, from the coordinates the
      first stair's step leaves. */
  lemma WithinTail(coords: Coordinates, stairs: seq<Node>)
    requires AllStairs(stairs) && |stairs| > 0
    ensures AllStairs(stairs[1..])
    ensures var name := stairs[0].name.value;
      var coords' := if name in coords then coords else coords[name := stairs[0].Pos()];
      (forall i :: 0 < i < |stairs| ==> WithinTolerance(Canonical(coords, stairs, i), stairs[i].Pos())) <==>
      (forall i :: 0 <= i < |stairs| - 1 ==> WithinTolerance(Canonical(coords', stairs[1..], i), stairs[1..][i].Pos()))
  {
    AllStairsTail(stairs);
    forall i | 0 < i < |stairs|
      ensures stairs[i] == stairs[1..][i - 1]
      ensures Canonical(coords, stairs, i) == Canonical(if stairs[0].name.value in coords then coords else coords[stairs[0].name.value := stairs[0].Pos()], stairs[1..], i - 1)
    {
      CanonicalTail(coords, stairs, i);
    }
  }

  /** Records made before the call are never changed, and the only names
      added are those of the stairs passed. */
  lemma {:induction false} CheckStairsKeeps(coords: Coordinates, stairs: seq<Node>)
    requires AllStairs(stairs)
    ensures forall k :: k in coords ==> k in CheckStairs(coords, stairs).1 && CheckStairs(coords, stairs).1[k] == coords[k]
    ensures forall k :: k in CheckStairs(coords, stairs).1 ==> k in coords || exists s :: s in stairs && s.name == Some(k)
    decreases |stairs|
  {
    if stairs != [] {
      var s := stairs[0];
      var name := s.name.value;
      AllStairsTail(stairs);
      if name !in coords {
        CheckStairsKeeps(coords[name := s.Pos()], stairs[1..]);
        forall k | k in CheckStairs(coords, stairs).1 && k !in coords
          ensures exists t :: t in stairs && t.name == Some(k)
        {
          if k != name {
            var t :| t in stairs[1..] && t.name == Some(k);
            assert t in stairs;
          }
        }
      } else if WithinTolerance(coords[name], s.Pos()) {
        CheckStairsKeeps(coords, stairs[1..]);
        forall k | k in CheckStairs(coords, stairs).1 && k !in coords
          ensures exists t :: t in stairs && t.name == Some(k)
        {
          var t :| t in stairs[1..] && t.name == Some(k);
          assert t in stairs;
        }
      }
    }
  }

  /** After a successful run every stair's name is recorded, at its canonical position. */
  lemma {:induction false} CheckStairsRecords(coords: Coordinates, stairs: seq<Node>)
    requires AllStairs(stairs) && CheckStairs(coords, stairs).0
    ensures forall i :: 0 <= i < |stairs| ==>
      stairs[i].name.value in CheckStairs(coords, stairs).1 &&
      CheckStairs(coords, stairs).1[stairs[i].name.value] == Canonical(coords, stairs, i)
    decreases |stairs|
  {
    if stairs != [] {
      var s := stairs[0];
      var name := s.name.value;
      var coords' := if name in coords then coords else coords[name := s.Pos()];
      AllStairsTail(stairs);
      assert CheckStairs(coords, stairs) == CheckStairs(coords', stairs[1..]);
      CheckStairsRecords(coords', stairs[1..]);
      CheckStairsKeeps(coords', stairs[1..]);
      forall i | 0 <= i < |stairs|
        ensures stairs[i].name.value in CheckStairs(coords, stairs).1
        ensures CheckStairs(coords, stairs).1[stairs[i].name.value] == Canonical(coords, stairs, i)
      {
        if i == 0 {
          assert Canonical(coords, stairs, 0) == coords'[name];
        } else {
          CanonicalTail(coords, stairs, i);
          assert stairs[1..][i - 1] == stairs[i];
        }
      }
    }
  }

  /** A failing run stops at the first stair out of tolerance: what it leaves
      recorded is exactly what a run over the stairs before that one records.
      So a rejected floor still leaves the names of its earlier stairs recorded. */
  lemma {:induction false} CheckStairsStops(coords: Coordinates, stairs: seq<Node>)
    requires AllStairs(stairs) && !CheckStairs(coords, stairs).0
    ensures exists f :: StopsAt(coords, stairs, f)
    decreases |stairs|
  {
    var s := stairs[0];
    var name := s.name.value;
    var coords' := if name in coords then coords else coords[name := s.Pos()];
    AllStairsTail(stairs);
    assert Canonical(coords, stairs, 0) == coords'[name];
    if name in coords && !WithinTolerance(coords[name], s.Pos()) {
      assert stairs[..0] == [];
      assert StopsAt(coords, stairs, 0);
    } else {
      assert CheckStairs(coords, stairs) == CheckStairs(coords', stairs[1..]);
      CheckStairsStops(coords', stairs[1..]);
      var f' :| StopsAt(coords', stairs[1..], f');
      StopsAtShift(coords, stairs, f');
    }
  }

  /** Stair `f` is the first one out of tolerance, and the run's records are
      those of the stairs before it. */
  ghost predicate StopsAt(coords: Coordinates, stairs: seq<Node>, f: nat)
    requires AllStairs(stairs)
  {
    && f < |stairs|
    && !WithinTolerance(Canonical(coords, stairs, f), stairs[f].Pos())
    && (forall i :: 0 <= i < f ==> WithinTolerance(Canonical(coords, stairs, i), stairs[i].Pos()))
    && AllStairs(stairs[..f])
    && CheckStairs(coords, stairs).1 == CheckStairs(coords, stairs[..f]).1
  }

  /** The run over the first `f` stairs, after a first step that does not
      fail, is the run over the next `f - 1` from the coordinates it leaves. */
  lemma CheckPrefixTail(coords: Coordinates, coords': Coordinates, stairs: seq<Node>, f: nat)
    requires AllStairs(stairs) && 0 < f <= |stairs|
    requires var name := stairs[0].name.value;
      && (name in coords ==> WithinTolerance(coords[name], stairs[0].Pos()))
      && coords' == if name in coords then coords else coords[name := stairs[0].Pos()]
    ensures AllStairs(stairs[..f]) && AllStairs(stairs[1..][..f - 1])
    ensures CheckStairs(coords, stairs[..f]) == CheckStairs(coords', stairs[1..][..f - 1])
  {
    var head := stairs[..f];
    assert forall k :: 0 <= k < f ==> head[k] == stairs[k];
    assert head[1..] == stairs[1..][..f - 1];
    AllStairsTail(head);
  }

  lemma StopsAtShift(coords: Coordinates, stairs: seq<Node>, f': nat)
    requires AllStairs(stairs) && |stairs| > 0
    requires var name := stairs[0].name.value;
      && (name in coords ==> WithinTolerance(coords[name], stairs[0].Pos()))
      && AllStairs(stairs[1..])
      && StopsAt(if name in coords then coords else coords[name := stairs[0].Pos()], stairs[1..], f')
    ensures StopsAt(coords, stairs, f' + 1)
  {
    var s := stairs[0];
    var name := s.name.value;
    var coords' := if name in coords then coords else coords[name := s.Pos()];
    var f := f' + 1;
    assert Canonical(coords, stairs, 0) == coords'[name];
    CanonicalTail(coords, stairs, f);
    assert stairs[1..][f'] == stairs[f];
    forall i | 0 < i < f
      ensures WithinTolerance(Canonical(coords, stairs, i), stairs[i].Pos())
    {
      CanonicalTail(coords, stairs, i);
      assert stairs[1..][i - 1] == stairs[i];
    }
    CheckPrefixTail(coords, coords', stairs, f);
    assert CheckStairs(coords, stairs) == CheckStairs(coords', stairs[1..]);
  }

  // ---------------------------------------------------------------------
  // updateStairConnections

  /** `stairConnections`: stairway name -> (floor id -> stair node id), the
      inner maps in insertion order. The outer map is only looked up. */
  type Connections = map<string, OrderedMap<string, NodeId>>

  ghost predicate ValidConnections(sc: Connections) {
    forall name :: name in sc ==> sc[name].Valid()
  }

  /** The stair node recorded for `name` on `floorId`, if any. */
  function Lookup(sc: Connections, name: string, floorId: string): Option<NodeId> {
    if name in sc then sc[name].Get(floorId) else None
  }

  /** One step of `updateStairConnections`: creates the entry for the stair's
      name when missing, then records the stair under `floorId`. */
  function ConnectOne(sc: Connections, floorId: string, s: Node): (r: Connections)
    requires ValidConnections(sc) && IsStair(s)
    ensures ValidConnections(r)
  {
    var name := s.name.value;
    var inner := if name in sc then sc[name] else Empty();
    sc[name := inner.Put(floorId, s.id)]
  }

  /** `updateStairConnections(floorId, stairs)`: the stairs in order. */
  function Connect(sc: Connections, floorId: string, stairs: seq<Node>): (r: Connections)
    requires ValidConnections(sc) && AllStairs(stairs)
    ensures ValidConnections(r)
    decreases |stairs|
  {
    if stairs == [] then sc
    else
      AllStairsTail(stairs);
      Connect(ConnectOne(sc, floorId, stairs[0]), floorId, stairs[1..])
  }

  /** The update over the stairs from `i` on: stair `i`'s step, then the rest. */
  lemma ConnectFrom(sc: Connections, floorId: string, stairs: seq<Node>, i: nat)
    requires ValidConnections(sc) && AllStairs(stairs) && i < |stairs|
    ensures IsStair(stairs[i]) && AllStairs(stairs[i..]) && AllStairs(stairs[i + 1..])
    ensures Connect(sc, floorId, stairs[i..]) == Connect(ConnectOne(sc, floorId, stairs[i]), floorId, stairs[i + 1..])
  {
    assert forall j :: i <= j < |stairs| ==> stairs[i..][j - i] == stairs[j];
    assert forall j :: i + 1 <= j < |stairs| ==> stairs[i + 1..][j - i - 1] == stairs[j];
    AllStairsTail(stairs[i..]);
    assert stairs[i..][1..] == stairs[i + 1..];
  }

  /** The id of the last stair named `name`, if any. */
  function LastIdFor(stairs: seq<Node>, name: string): Option<NodeId> {
    if stairs == [] then None
    else match LastIdFor(stairs[1..], name)
      case Some(id) => Some(id)
      case None => if stairs[0].name == Some(name) then Some(stairs[0].id) else None
  }

  lemma {:induction false} LastIdForIndex(stairs: seq<Node>, name: string, id: NodeId)
    ensures LastIdFor(stairs, name) == Some(id) <==>
      exists i :: 0 <= i < |stairs| && stairs[i].name == Some(name) && stairs[i].id == id &&
        forall j :: i < j < |stairs| ==> stairs[j].name != Some(name)
    ensures LastIdFor(stairs, name).None? <==> forall j :: 0 <= j < |stairs| ==> stairs[j].name != Some(name)
  {
    if stairs != [] {
      var rest := stairs[1..];
      LastIdForIndex(rest, name, id);
      assert forall j :: 0 < j < |stairs| ==> stairs[j] == rest[j - 1];
      if LastIdFor(rest, name) == Some(id) {
        var i :| 0 <= i < |rest| && rest[i].name == Some(name) && rest[i].id == id &&
          forall j :: i < j < |rest| ==> rest[j].name != Some(name);
        assert stairs[i + 1] == rest[i];
      }
      if exists i :: 0 <= i < |stairs| && stairs[i].name == Some(name) && stairs[i].id == id &&
          forall j :: i < j < |stairs| ==> stairs[j].name != Some(name)
      {
        var i :| 0 <= i < |stairs| && stairs[i].name == Some(name) && stairs[i].id == id &&
          forall j :: i < j < |stairs| ==> stairs[j].name != Some(name);
        if i > 0 {
          assert rest[i - 1] == stairs[i];
          assert forall j :: i - 1 < j < |rest| ==> rest[j].name != Some(name);
        } else {
          assert forall j :: 0 <= j < |rest| ==> rest[j].name != Some(name);
        }
      }
    }
  }

  /** After `updateStairConnections(floorId, stairs)`: a name has an entry
      exactly when it had one or names one of the stairs. */
  lemma {:induction false} ConnectNames(sc: Connections, floorId: string, stairs: seq<Node>, name: string)
    requires ValidConnections(sc) && AllStairs(stairs)
    ensures name in Connect(sc, floorId, stairs) <==> name in sc || LastIdFor(stairs, name).Some?
    decreases |stairs|
  {
    if stairs != [] {
      AllStairsTail(stairs);
      var sc1 := ConnectOne(sc, floorId, stairs[0]);
      ConnectNames(sc1, floorId, stairs[1..], name);
    }
  }

  /** ... and its entry under `floorId` is the last stair with that name, when
      there is one; every other entry is as before. */
  lemma {:induction false} ConnectLookup(sc: Connections, floorId: string, stairs: seq<Node>, name: string, g: string)
    requires ValidConnections(sc) && AllStairs(stairs)
    ensures Lookup(Connect(sc, floorId, stairs), name, g) ==
      if g == floorId && LastIdFor(stairs, name).Some? then LastIdFor(stairs, name) else Lookup(sc, name, g)
    decreases |stairs|
  {
    if stairs != [] {
      AllStairsTail(stairs);
      var sc1 := ConnectOne(sc, floorId, stairs[0]);
      ConnectLookup(sc1, floorId, stairs[1..], name, g);
    }
  }
}
