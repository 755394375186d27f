/** The state space `findPathMultiFloor` explores: (floor, node) locations,
    joined by the edges of each floor's graph and by stair hops between
    floors, and the facts about its breadth-first search that make the route
    it returns a shortest one. */
module Search {
  import opened Wrappers
  import opened OrderedMaps
  import opened FloorGraph
  import opened Stairs
  import opened Floors

  /** `{ floor, node }`, one step of a path; also the key of the visited set. */
  datatype Loc = Loc(floor: string, node: NodeId)

  /** A queue entry `{ floor, node, path, stairs }`. */
  datatype Entry = Entry(floor: string, node: NodeId, path: seq<Loc>, stairs: seq<string>) {
    function At(): Loc {
      Loc(floor, node)
    }
  }

  /** The result `{ path, stairs }`. */
  datatype Route = Route(path: seq<Loc>, stairs: seq<string>)

  /** The node record at `l`, when its floor is registered and has that node. */
  function NodeOf(floors: FloorMap, l: Loc): Option<Node> {
    match floors.Get(l.floor)
    case None => None
    case Some(f) => f.graph.nodes.Get(l.node)
  }

  /** The same-floor moves from node `n` on `floor`: its adjacency list, in order. */
  function Neighbours(floor: string, n: Node): (r: seq<Loc>)
    ensures |r| == |n.edges|
  {
    seq(|n.edges|, i requires 0 <= i < |n.edges| => Loc(floor, n.edges[i]))
  }

  /** The entries of a stair's connection map for floors other than `floor`,
      visiting `keys` in order. */
  function HopsOver(m: map<string, NodeId>, floor: string, keys: seq<string>): seq<Loc> {
    if keys == [] then []
    else
      var k := keys[|keys| - 1];
      HopsOver(m, floor, keys[..|keys| - 1]) + (if k in m && k != floor then [Loc(k, m[k])] else [])
  }

  lemma HopsOverSnoc(m: map<string, NodeId>, floor: string, keys: seq<string>, j: nat)
    requires j < |keys|
    ensures HopsOver(m, floor, keys[..j + 1]) ==
            HopsOver(m, floor, keys[..j]) + (if keys[j] in m && keys[j] != floor then [Loc(keys[j], m[keys[j]])] else [])
  {
    assert keys[..j + 1][..j] == keys[..j];
  }

  /** Pushing the hop to the `j`th floor of a stair's connection map. */
  lemma PushHopStep(floors: FloorMap, cur: Entry, n: Node, m: map<string, NodeId>, keys: seq<string>,
                    j: nat, visited: set<Loc>)
    requires NodeOf(floors, cur.At()) == Some(n) && n.name.Some?
    requires j < |keys| && keys[j] in m
    ensures var hop := Loc(keys[j], m[keys[j]]);
      Pushes(floors, cur, HopsOver(m, cur.floor, keys[..j + 1]), visited) ==
      Pushes(floors, cur, HopsOver(m, cur.floor, keys[..j]), visited) +
      (if keys[j] != cur.floor && hop !in visited
       then [Entry(keys[j], m[keys[j]], cur.path + [hop], cur.stairs + [n.name.value])] else [])
  {
    var hs := HopsOver(m, cur.floor, keys[..j]);
    HopsOverSnoc(m, cur.floor, keys, j);
    if keys[j] != cur.floor {
      PushesSnoc(floors, cur, hs, Loc(keys[j], m[keys[j]]), visited);
    } else {
      assert hs + [] == hs;
    }
  }

  /** The stair hops from node `n` on `floor`: none unless `n` is a stair whose
      name has connections. */
  function StairHops(sc: Connections, floor: string, n: Node): seq<Loc> {
    if IsStair(n) && n.name.value in sc then
      var inner := sc[n.name.value];
      HopsOver(inner.m, floor, inner.keys)
    else []
  }

  /** The locations pushed from `l`, in push order: none when the floor or the
      node is missing, else the neighbours, then the stair hops. */
  function Moves(floors: FloorMap, sc: Connections, l: Loc): seq<Loc> {
    match NodeOf(floors, l)
    case None => []
    case Some(n) => Neighbours(l.floor, n) + StairHops(sc, l.floor, n)
  }

  /** One move of the layered graph, stated directly: along an adjacency entry
      on the same floor, or from a stair to the node recorded for its name on
      another floor. */
  ghost predicate Step(floors: FloorMap, sc: Connections, a: Loc, b: Loc) {
    exists n :: NodeOf(floors, a) == Some(n) &&
      ((b.floor == a.floor && b.node in n.edges) ||
       (IsStair(n) && b.floor != a.floor && Lookup(sc, n.name.value, b.floor) == Some(b.node)))
  }

  lemma {:induction false} HopsOverMembers(m: map<string, NodeId>, floor: string, keys: seq<string>, b: Loc)
    ensures b in HopsOver(m, floor, keys) <==> b.floor in keys && b.floor in m && b.floor != floor && m[b.floor] == b.node
  {
    if keys != [] {
      HopsOverMembers(m, floor, keys[..|keys| - 1], b);
      assert keys == keys[..|keys| - 1] + [keys[|keys| - 1]];
    }
  }

  /** The pushes from `a` are exactly its moves. */
  lemma MovesStep(floors: FloorMap, sc: Connections, a: Loc, b: Loc)
    requires ValidConnections(sc)
    ensures b in Moves(floors, sc, a) <==> Step(floors, sc, a, b)
  {
    match NodeOf(floors, a)
    case None =>
    case Some(n) =>
      if b in Neighbours(a.floor, n) {
        var i :| 0 <= i < |n.edges| && Neighbours(a.floor, n)[i] == b;
        assert n.edges[i] in n.edges;
      }
      if b.floor == a.floor && b.node in n.edges {
        var i :| 0 <= i < |n.edges| && n.edges[i] == b.node;
        assert Neighbours(a.floor, n)[i] == b;
      }
      if IsStair(n) && n.name.value in sc {
        HopsOverMembers(sc[n.name.value].m, a.floor, sc[n.name.value].keys, b);
      }
  }

  /** A path of the layered graph: at least one location, each next one a move
      from the one before. */
  ghost predicate ValidPath(floors: FloorMap, sc: Connections, p: seq<Loc>) {
    && |p| >= 1
    && forall i :: 0 <= i < |p| - 1 ==> p[i + 1] in Moves(floors, sc, p[i])
  }

  ghost predicate Reachable(floors: FloorMap, sc: Connections, s: Loc, e: Loc) {
    exists p :: ValidPath(floors, sc, p) && p[0] == s && p[|p| - 1] == e
  }

  /** The name of the stair at `l` (`""` where there is none). */
  function NameAt(floors: FloorMap, l: Loc): string {
    match NodeOf(floors, l)
    case Some(n) => if n.name.Some? then n.name.value else ""
    case None => ""
  }

  /** The stairs list of a path: the name of the node left at each change of floor. */
  function StairsOf(floors: FloorMap, p: seq<Loc>): seq<string> {
    if |p| <= 1 then []
    else
      var last, prev := p[|p| - 1], p[|p| - 2];
      StairsOf(floors, p[..|p| - 1]) + (if last.floor != prev.floor then [NameAt(floors, prev)] else [])
  }

  lemma ValidPathPrefix(floors: FloorMap, sc: Connections, p: seq<Loc>)
    requires ValidPath(floors, sc, p) && |p| > 1
    ensures ValidPath(floors, sc, p[..|p| - 1])
  {
    var p' := p[..|p| - 1];
    forall i | 0 <= i < |p'| - 1 ensures p'[i + 1] in Moves(floors, sc, p'[i]) {
      assert p'[i + 1] == p[i + 1] && p'[i] == p[i];
    }
  }

  /** A move to another floor leaves a stair whose name has connections. */
  lemma HopLeavesStair(floors: FloorMap, sc: Connections, prev: Loc, last: Loc)
    requires ValidConnections(sc) && last in Moves(floors, sc, prev) && last.floor != prev.floor
    ensures NameAt(floors, prev) in sc && |NameAt(floors, prev)| >= 1 && NameAt(floors, prev)[0] == 'L'
  {
    MovesStep(floors, sc, prev, last);
    var n :| NodeOf(floors, prev) == Some(n) && IsStair(n) && Lookup(sc, n.name.value, last.floor) == Some(last.node);
    assert NameAt(floors, prev) == n.name.value;
    assert n.name.value[..1] == "L";
  }

  /** Along a path of the layered graph the floor only changes by a stair hop,
      so every name in its stairs list is a stair's name with connections. */
  lemma {:induction false} StairsOfAreStairs(floors: FloorMap, sc: Connections, p: seq<Loc>)
    requires ValidConnections(sc) && ValidPath(floors, sc, p)
    ensures forall s :: s in StairsOf(floors, p) ==> s in sc && |s| >= 1 && s[0] == 'L'
  {
    if |p| > 1 {
      var p' := p[..|p| - 1];
      ValidPathPrefix(floors, sc, p);
      StairsOfAreStairs(floors, sc, p');
      var last, prev := p[|p| - 1], p[|p| - 2];
      assert last in Moves(floors, sc, prev);
      if last.floor != prev.floor {
        HopLeavesStair(floors, sc, prev, last);
      }
    }
  }

  // ---------------------------------------------------------------------
  // The queue

  /** The first entry: the start location, alone on its path, with no stairs. */
  function Initial(start: Loc): Entry {
    Entry(start.floor, start.node, [start], [])
  }

  /** The entry pushed for a move from `cur` to `t`: `t` appended to the path,
      and the stair left appended to the stairs when the floor changes. */
  function Extend(floors: FloorMap, cur: Entry, t: Loc): Entry {
    Entry(t.floor, t.node, cur.path + [t],
          if t.floor != cur.floor then cur.stairs + [NameAt(floors, cur.At())] else cur.stairs)
  }

  /** The entries pushed for the moves `ts` from `cur`: one for each that is not visited. */
  function Pushes(floors: FloorMap, cur: Entry, ts: seq<Loc>, visited: set<Loc>): seq<Entry> {
    if ts == [] then []
    else
      var t := ts[|ts| - 1];
      Pushes(floors, cur, ts[..|ts| - 1], visited) + (if t !in visited then [Extend(floors, cur, t)] else [])
  }

  /** Pushing one more move: its entry is added unless its location is visited. */
  lemma PushesSnoc(floors: FloorMap, cur: Entry, ts: seq<Loc>, t: Loc, visited: set<Loc>)
    ensures Pushes(floors, cur, ts + [t], visited) ==
            Pushes(floors, cur, ts, visited) + (if t !in visited then [Extend(floors, cur, t)] else [])
  {
    assert (ts + [t])[..|ts|] == ts;
  }

  lemma {:induction false} PushesAppend(floors: FloorMap, cur: Entry, a: seq<Loc>, b: seq<Loc>, visited: set<Loc>)
    ensures Pushes(floors, cur, a + b, visited) == Pushes(floors, cur, a, visited) + Pushes(floors, cur, b, visited)
  {
    if b == [] {
      assert a + b == a;
    } else {
      var b' := b[..|b| - 1];
      assert (a + b)[..|a + b| - 1] == a + b';
      PushesAppend(floors, cur, a, b', visited);
    }
  }

  /** Every pushed entry extends `cur` by one of the moves, unvisited; every
      unvisited move is pushed. */
  lemma {:induction false} PushesMembers(floors: FloorMap, cur: Entry, ts: seq<Loc>, visited: set<Loc>)
    ensures forall e :: e in Pushes(floors, cur, ts, visited) ==> exists t :: t in ts && t !in visited && e == Extend(floors, cur, t)
    ensures forall t :: t in ts && t !in visited ==> Extend(floors, cur, t) in Pushes(floors, cur, ts, visited)
  {
    if ts != [] {
      var ts' := ts[..|ts| - 1];
      PushesMembers(floors, cur, ts', visited);
      assert ts == ts' + [ts[|ts| - 1]];
    }
  }

  /** An entry the search can hold: a path of the layered graph from the start
      to the entry's location, and the stairs list of that path. */
  ghost predicate EntryOk(floors: FloorMap, sc: Connections, start: Loc, e: Entry) {
    && ValidPath(floors, sc, e.path)
    && e.path[0] == start
    && e.path[|e.path| - 1] == e.At()
    && e.stairs == StairsOf(floors, e.path)
  }

  lemma ExtendOk(floors: FloorMap, sc: Connections, start: Loc, cur: Entry, t: Loc)
    requires EntryOk(floors, sc, start, cur) && t in Moves(floors, sc, cur.At())
    ensures EntryOk(floors, sc, start, Extend(floors, cur, t))
  {
    var p := cur.path + [t];
    assert p[..|p| - 1] == cur.path;
    forall i | 0 <= i < |p| - 1 ensures p[i + 1] in Moves(floors, sc, p[i]) {
      if i < |cur.path| - 1 {
        assert p[i + 1] == cur.path[i + 1] && p[i] == cur.path[i];
      }
    }
  }

  ghost predicate EntriesOk(floors: FloorMap, sc: Connections, start: Loc, queue: seq<Entry>) {
    forall i :: 0 <= i < |queue| ==> EntryOk(floors, sc, start, queue[i])
  }

  /** Queue lengths never decrease from front to back and span at most two
      consecutive values: `level` and `level + 1`. */
  ghost predicate Frontier(queue: seq<Entry>, level: nat) {
    && (forall i, j :: 0 <= i < j < |queue| ==> |queue[i].path| <= |queue[j].path|)
    && (forall i :: 0 <= i < |queue| ==> level <= |queue[i].path| <= level + 1)
  }

  /** Some queue entry at `t` has a path of at most `d` locations. */
  ghost predicate Queued(queue: seq<Entry>, t: Loc, d: nat) {
    exists i :: 0 <= i < |queue| && queue[i].At() == t && |queue[i].path| <= d
  }

  /** Every move out of a settled location leads to a location settled at most
      one step later, or to one queued at most one step later. `settled` maps
      each visited location to the length of the path it was reached by. */
  ghost predicate Closed(floors: FloorMap, sc: Connections, settled: map<Loc, nat>, queue: seq<Entry>) {
    forall v, t :: v in settled && t in Moves(floors, sc, v) ==>
      (t in settled && settled[t] <= settled[v] + 1) || Queued(queue, t, settled[v] + 1)
  }

  ghost predicate Settled(settled: map<Loc, nat>, level: nat) {
    forall v :: v in settled ==> 1 <= settled[v] <= level
  }

  /** Before the first pop the queue holds only the initial entry; after it the
      start is settled at length one. */
  ghost predicate Started(start: Loc, queue: seq<Entry>, settled: map<Loc, nat>) {
    && (settled == map[] ==> queue == [Initial(start)])
    && (settled != map[] ==> start in settled && settled[start] == 1)
  }

  /** The invariant of the search loop. */
  ghost predicate Searching(floors: FloorMap, sc: Connections, start: Loc, end: Loc,
                            queue: seq<Entry>, settled: map<Loc, nat>, level: nat) {
    && EntriesOk(floors, sc, start, queue)
    && Frontier(queue, level)
    && Settled(settled, level)
    && Closed(floors, sc, settled, queue)
    && Started(start, queue, settled)
    && end !in settled
  }

  lemma SearchingInit(floors: FloorMap, sc: Connections, start: Loc, end: Loc)
    ensures Searching(floors, sc, start, end, [Initial(start)], map[], 1)
  {
  }

  lemma EntriesTail(floors: FloorMap, sc: Connections, start: Loc, queue: seq<Entry>)
    requires EntriesOk(floors, sc, start, queue) && queue != []
    ensures EntryOk(floors, sc, start, queue[0]) && EntriesOk(floors, sc, start, queue[1..])
  {
    assert forall i :: 0 <= i < |queue| - 1 ==> queue[1..][i] == queue[i + 1];
  }

  lemma FrontierTail(queue: seq<Entry>, level: nat)
    requires Frontier(queue, level) && queue != []
    ensures Frontier(queue[1..], level)
    ensures forall i :: 0 <= i < |queue| ==> |queue[0].path| <= |queue[i].path|
  {
    assert forall i :: 0 <= i < |queue| - 1 ==> queue[1..][i] == queue[i + 1];
  }

  /** Popping an entry whose location is already settled keeps the closure:
      that location was settled no later than the popped entry's length. */
  lemma ClosedPopVisited(floors: FloorMap, sc: Connections, queue: seq<Entry>, settled: map<Loc, nat>, level: nat)
    requires Closed(floors, sc, settled, queue) && Settled(settled, level) && Frontier(queue, level)
    requires queue != [] && queue[0].At() in settled
    ensures Closed(floors, sc, settled, queue[1..])
  {
    var q' := queue[1..];
    forall v, t | v in settled && t in Moves(floors, sc, v)
      ensures (t in settled && settled[t] <= settled[v] + 1) || Queued(q', t, settled[v] + 1)
    {
      if !(t in settled && settled[t] <= settled[v] + 1) {
        var i :| 0 <= i < |queue| && queue[i].At() == t && |queue[i].path| <= settled[v] + 1;
        if i == 0 {
          assert false;
        }
        assert q'[i - 1] == queue[i];
      }
    }
  }

  /** Popping an entry whose location is already visited. */
  lemma PopVisited(floors: FloorMap, sc: Connections, start: Loc, end: Loc,
                   queue: seq<Entry>, settled: map<Loc, nat>, level: nat)
    requires Searching(floors, sc, start, end, queue, settled, level)
    requires queue != [] && queue[0].At() in settled
    ensures Searching(floors, sc, start, end, queue[1..], settled, level)
  {
    EntriesTail(floors, sc, start, queue);
    FrontierTail(queue, level);
    ClosedPopVisited(floors, sc, queue, settled, level);
  }

  /** The entries pushed from `e`: each extends `e` by an unvisited move. */
  lemma PushedOk(floors: FloorMap, sc: Connections, start: Loc, e: Entry, visited: set<Loc>)
    requires EntryOk(floors, sc, start, e)
    ensures var ps := Pushes(floors, e, Moves(floors, sc, e.At()), visited);
      EntriesOk(floors, sc, start, ps) && forall i :: 0 <= i < |ps| ==> |ps[i].path| == |e.path| + 1
  {
    var ms := Moves(floors, sc, e.At());
    var ps := Pushes(floors, e, ms, visited);
    PushesMembers(floors, e, ms, visited);
    forall i | 0 <= i < |ps|
      ensures EntryOk(floors, sc, start, ps[i]) && |ps[i].path| == |e.path| + 1
    {
      assert ps[i] in ps;
      var t :| t in ms && t !in visited && ps[i] == Extend(floors, e, t);
      ExtendOk(floors, sc, start, e, t);
    }
  }

  lemma EntriesAppend(floors: FloorMap, sc: Connections, start: Loc, a: seq<Entry>, b: seq<Entry>)
    requires EntriesOk(floors, sc, start, a) && EntriesOk(floors, sc, start, b)
    ensures EntriesOk(floors, sc, start, a + b)
  {
    forall i | 0 <= i < |a + b| ensures EntryOk(floors, sc, start, (a + b)[i]) {
      if i < |a| { assert (a + b)[i] == a[i]; } else { assert (a + b)[i] == b[i - |a|]; }
    }
  }

  /** Appending entries one longer than the new level `d` keeps the frontier. */
  lemma FrontierPush(q1: seq<Entry>, ps: seq<Entry>, level: nat, d: nat)
    requires Frontier(q1, level) && level <= d <= level + 1
    requires forall i :: 0 <= i < |q1| ==> d <= |q1[i].path|
    requires forall i :: 0 <= i < |ps| ==> |ps[i].path| == d + 1
    ensures Frontier(q1 + ps, d)
  {
    var q' := q1 + ps;
    forall i | 0 <= i < |q'| ensures d <= |q'[i].path| <= d + 1 {
      if i < |q1| { assert q'[i] == q1[i]; } else { assert q'[i] == ps[i - |q1|]; }
    }
    forall i, j | 0 <= i < j < |q'| ensures |q'[i].path| <= |q'[j].path| {
      if j < |q1| {
        assert q'[i] == q1[i] && q'[j] == q1[j];
      } else if i < |q1| {
        assert q'[i] == q1[i] && q'[j] == ps[j - |q1|];
      } else {
        assert q'[i] == ps[i - |q1|] && q'[j] == ps[j - |q1|];
      }
    }
  }

  /** A move out of the popped entry that was not visited is queued behind
      the old queue, one step longer than the popped entry. */
  lemma PushedQueued(floors: FloorMap, cur: Entry, ms: seq<Loc>, visited: set<Loc>, q1: seq<Entry>, t: Loc)
    requires t in ms && t !in visited
    ensures Queued(q1 + Pushes(floors, cur, ms, visited), t, |cur.path| + 1)
  {
    var ps := Pushes(floors, cur, ms, visited);
    PushesMembers(floors, cur, ms, visited);
    var e' := Extend(floors, cur, t);
    var j :| 0 <= j < |ps| && ps[j] == e';
    assert (q1 + ps)[|q1| + j] == e';
  }

  /** A location queued behind the popped entry stays queued. */
  lemma StillQueued(queue: seq<Entry>, ps: seq<Entry>, t: Loc, d: nat)
    requires queue != [] && Queued(queue, t, d) && queue[0].At() != t
    ensures Queued(queue[1..] + ps, t, d)
  {
    var i :| 0 <= i < |queue| && queue[i].At() == t && |queue[i].path| <= d;
    assert (queue[1..] + ps)[i - 1] == queue[i];
  }

  /** Settling the popped location `queue[0].At()` at `|queue[0].path|` and pushing its
      unvisited moves keeps the closure. */
  lemma ClosedPopNew(floors: FloorMap, sc: Connections, queue: seq<Entry>, settled: map<Loc, nat>, level: nat,
                     settled': map<Loc, nat>, ps: seq<Entry>)
    requires Closed(floors, sc, settled, queue) && Settled(settled, level) && Frontier(queue, level)
    requires queue != [] && queue[0].At() !in settled
    requires settled' == settled[queue[0].At() := |queue[0].path|]
    requires ps == Pushes(floors, queue[0], Moves(floors, sc, queue[0].At()), settled'.Keys)
    ensures Closed(floors, sc, settled', queue[1..] + ps)
  {
    var t0 := queue[0].At();
    forall v, t | v in settled' && t in Moves(floors, sc, v)
      ensures (t in settled' && settled'[t] <= settled'[v] + 1) || Queued(queue[1..] + ps, t, settled'[v] + 1)
    {
      if v == t0 {
        if t !in settled' {
          PushedQueued(floors, queue[0], Moves(floors, sc, t0), settled'.Keys, queue[1..], t);
        }
      } else if !(t in settled && settled[t] <= settled[v] + 1) {
        assert Queued(queue, t, settled[v] + 1);
        if t != t0 {
          StillQueued(queue, ps, t, settled[v] + 1);
        }
      }
    }
  }

  /** Popping an entry at an unvisited location other than the end, settling
      it, and pushing its unvisited moves. */
  lemma PopNew(floors: FloorMap, sc: Connections, start: Loc, end: Loc,
               queue: seq<Entry>, settled: map<Loc, nat>, level: nat, settled': map<Loc, nat>, ps: seq<Entry>)
    requires Searching(floors, sc, start, end, queue, settled, level)
    requires queue != [] && queue[0].At() !in settled && queue[0].At() != end
    requires settled' == settled[queue[0].At() := |queue[0].path|]
    requires ps == Pushes(floors, queue[0], Moves(floors, sc, queue[0].At()), settled'.Keys)
    ensures Searching(floors, sc, start, end, queue[1..] + ps, settled', |queue[0].path|)
  {
    QueueStep(floors, sc, start, queue, level, settled'.Keys, ps);
    SettleStep(start, end, queue, settled, level, settled', queue[1..] + ps);
    ClosedPopNew(floors, sc, queue, settled, level, settled', ps);
  }

  /** Popping the front entry and pushing its moves keeps every entry valid,
      and the lengths ordered and within the next two levels. */
  lemma QueueStep(floors: FloorMap, sc: Connections, start: Loc, queue: seq<Entry>, level: nat,
                  visited: set<Loc>, ps: seq<Entry>)
    requires EntriesOk(floors, sc, start, queue) && Frontier(queue, level) && queue != []
    requires ps == Pushes(floors, queue[0], Moves(floors, sc, queue[0].At()), visited)
    ensures EntriesOk(floors, sc, start, queue[1..] + ps) && Frontier(queue[1..] + ps, |queue[0].path|)
  {
    var e := queue[0];
    EntriesTail(floors, sc, start, queue);
    FrontierTail(queue, level);
    PushedOk(floors, sc, start, e, visited);
    EntriesAppend(floors, sc, start, queue[1..], ps);
    assert forall i :: 0 <= i < |queue| - 1 ==> queue[1..][i] == queue[i + 1];
    FrontierPush(queue[1..], ps, level, |e.path|);
  }

  /** Settling the front entry keeps the settled lengths bounded by the new
      level, the start settled at one, and the end unsettled. */
  lemma SettleStep(start: Loc, end: Loc, queue: seq<Entry>, settled: map<Loc, nat>, level: nat,
                   settled': map<Loc, nat>, queue': seq<Entry>)
    requires Settled(settled, level) && Started(start, queue, settled) && end !in settled
    requires queue != [] && level <= |queue[0].path| && 1 <= |queue[0].path|
    requires queue[0].At() !in settled && queue[0].At() != end
    requires settled' == settled[queue[0].At() := |queue[0].path|]
    ensures Settled(settled', |queue[0].path|) && Started(start, queue', settled') && end !in settled'
  {
  }

  /** Whatever path leads from the start to `last`, either `last` is settled
      no later than the path's length, or some queued entry is no longer than
      the path. */
  lemma {:induction false} NoShorterPath(floors: FloorMap, sc: Connections, start: Loc, end: Loc,
                                         queue: seq<Entry>, settled: map<Loc, nat>, level: nat, p: seq<Loc>)
    requires Closed(floors, sc, settled, queue) && Started(start, queue, settled)
    requires ValidPath(floors, sc, p) && p[0] == start
    ensures (p[|p| - 1] in settled && settled[p[|p| - 1]] <= |p|) ||
            exists i :: 0 <= i < |queue| && |queue[i].path| <= |p|
  {
    if |p| == 1 {
      if settled == map[] {
        assert |queue[0].path| == 1;
      }
    } else {
      var p' := p[..|p| - 1];
      ValidPathPrefix(floors, sc, p);
      NoShorterPath(floors, sc, start, end, queue, settled, level, p');
      var v, t := p[|p| - 2], p[|p| - 1];
      assert p'[|p'| - 1] == v;
      assert t in Moves(floors, sc, v);
    }
  }

  /** Popping the end: its entry is a shortest path from the start. */
  lemma FoundShortest(floors: FloorMap, sc: Connections, start: Loc, end: Loc,
                      queue: seq<Entry>, settled: map<Loc, nat>, level: nat, p: seq<Loc>)
    requires Searching(floors, sc, start, end, queue, settled, level)
    requires queue != [] && queue[0].At() == end
    requires ValidPath(floors, sc, p) && p[0] == start && p[|p| - 1] == end
    ensures |queue[0].path| <= |p|
  {
    assert Closed(floors, sc, settled, queue) && Started(start, queue, settled);
    NoShorterPath(floors, sc, start, end, queue, settled, level, p);
    assert end !in settled;
    if exists i :: 0 <= i < |queue| && |queue[i].path| <= |p| {
      var i :| 0 <= i < |queue| && |queue[i].path| <= |p|;
      if i > 0 {
        assert |queue[0].path| <= |queue[i].path|;
      }
    }
  }

  /** The entry popped at the end: its route is a shortest one. */
  lemma Found(floors: FloorMap, sc: Connections, start: Loc, end: Loc,
              queue: seq<Entry>, settled: map<Loc, nat>, level: nat)
    requires Searching(floors, sc, start, end, queue, settled, level)
    requires queue != [] && queue[0].At() == end
    ensures IsRoute(floors, sc, start, end, Route(queue[0].path, queue[0].stairs))
    ensures Shortest(floors, sc, start, end, Route(queue[0].path, queue[0].stairs))
    ensures Reachable(floors, sc, start, end)
  {
    EntriesTail(floors, sc, start, queue);
    forall p | ValidPath(floors, sc, p) && p[0] == start && p[|p| - 1] == end
      ensures |queue[0].path| <= |p|
    {
      FoundShortest(floors, sc, start, end, queue, settled, level, p);
    }
  }

  /** An empty queue: the end cannot be reached. */
  lemma Exhausted(floors: FloorMap, sc: Connections, start: Loc, end: Loc,
                  settled: map<Loc, nat>, level: nat)
    requires Searching(floors, sc, start, end, [], settled, level)
    ensures !Reachable(floors, sc, start, end)
  {
    if Reachable(floors, sc, start, end) {
      var p :| ValidPath(floors, sc, p) && p[0] == start && p[|p| - 1] == end;
      NoShorterPath(floors, sc, start, end, [], settled, level, p);
    }
  }

  /** The route `findPathMultiFloor` returns: a path of the layered graph from
      `s` to `e`, with the stairs it takes. */
  ghost predicate IsRoute(floors: FloorMap, sc: Connections, s: Loc, e: Loc, r: Route) {
    && ValidPath(floors, sc, r.path)
    && r.path[0] == s
    && r.path[|r.path| - 1] == e
    && r.stairs == StairsOf(floors, r.path)
  }

  /** No path from `s` to `e` has fewer locations. */
  ghost predicate Shortest(floors: FloorMap, sc: Connections, s: Loc, e: Loc, r: Route) {
    forall p :: ValidPath(floors, sc, p) && p[0] == s && p[|p| - 1] == e ==> |r.path| <= |p|
  }

  /** From a location to itself the only shortest route is standing still. */
  lemma RouteToItself(floors: FloorMap, sc: Connections, s: Loc, r: Route)
    requires IsRoute(floors, sc, s, s, r) && Shortest(floors, sc, s, s, r)
    ensures r == Route([s], [])
  {
    assert ValidPath(floors, sc, [s]);
    assert r.path == [s];
  }

  // ---------------------------------------------------------------------
  // Termination

  /** Every location the search can reach: the start and every move target. */
  ghost function Universe(floors: FloorMap, sc: Connections, start: Loc): set<Loc> {
    {start} + set f, k, t | f in floors.m && k in floors.m[f].graph.nodes.m && t in Moves(floors, sc, Loc(f, k)) :: t
  }

  lemma MovesInUniverse(floors: FloorMap, sc: Connections, start: Loc, l: Loc)
    ensures forall t :: t in Moves(floors, sc, l) ==> t in Universe(floors, sc, start)
  {
    if NodeOf(floors, l).Some? {
      assert l.floor in floors.m && l.node in floors.m[l.floor].graph.nodes.m;
      assert l == Loc(l.floor, l.node);
    }
  }

  /** A finite set of locations holding the start and every move target;
      the visited set grows inside it, which bounds the search. */
  lemma SearchSpace(floors: FloorMap, sc: Connections, start: Loc) returns (U: set<Loc>)
    ensures start in U
    ensures forall l, t :: t in Moves(floors, sc, l) ==> t in U
  {
    U := Universe(floors, sc, start);
    forall l, t | t in Moves(floors, sc, l) ensures t in U {
      MovesInUniverse(floors, sc, start, l);
    }
  }

  /** Every queued entry is at a location of `U`. */
  ghost predicate InSpace(queue: seq<Entry>, U: set<Loc>) {
    forall i :: 0 <= i < |queue| ==> queue[i].At() in U
  }

  lemma {:induction false} PushesInSpace(floors: FloorMap, cur: Entry, ts: seq<Loc>, visited: set<Loc>, U: set<Loc>)
    requires forall i :: 0 <= i < |ts| ==> ts[i] in U
    ensures InSpace(Pushes(floors, cur, ts, visited), U)
  {
    if ts != [] {
      var init := ts[..|ts| - 1];
      assert forall i :: 0 <= i < |init| ==> init[i] == ts[i];
      PushesInSpace(floors, cur, init, visited, U);
    }
  }

  lemma InSpaceStep(queue: seq<Entry>, pushed: seq<Entry>, U: set<Loc>)
    requires queue != [] && InSpace(queue, U) && InSpace(pushed, U)
    ensures queue[0].At() in U && InSpace(queue[1..] + pushed, U)
  {
    assert forall i :: 0 <= i < |queue| - 1 ==> queue[1..][i] == queue[i + 1];
  }

  /** The step of the search that pops an already visited entry. */
  lemma Skip(floors: FloorMap, sc: Connections, start: Loc, end: Loc, U: set<Loc>,
             queue: seq<Entry>, settled: map<Loc, nat>, level: nat)
    requires Searching(floors, sc, start, end, queue, settled, level) && InSpace(queue, U)
    requires queue != [] && queue[0].At() in settled
    ensures Searching(floors, sc, start, end, queue[1..], settled, level) && InSpace(queue[1..], U)
  {
    PopVisited(floors, sc, start, end, queue, settled, level);
    InSpaceStep(queue, [], U);
    assert queue[1..] + [] == queue[1..];
  }

  /** The step of the search that pops an unvisited entry other than the end,
      settles it and pushes its unvisited moves: the invariant holds again and
      one more location of `U` is visited. */
  lemma Advance(floors: FloorMap, sc: Connections, start: Loc, end: Loc, U: set<Loc>,
                queue: seq<Entry>, settled: map<Loc, nat>, level: nat,
                settled': map<Loc, nat>, visited: set<Loc>, pushed: seq<Entry>)
    requires Searching(floors, sc, start, end, queue, settled, level)
    requires InSpace(queue, U) && settled.Keys <= U
    requires forall l, t :: t in Moves(floors, sc, l) ==> t in U
    requires queue != [] && queue[0].At() !in settled && queue[0].At() != end
    requires settled' == settled[queue[0].At() := |queue[0].path|]
    requires visited == settled.Keys + {queue[0].At()}
    requires pushed == Pushes(floors, queue[0], Moves(floors, sc, queue[0].At()), visited)
    ensures Searching(floors, sc, start, end, queue[1..] + pushed, settled', |queue[0].path|)
    ensures InSpace(queue[1..] + pushed, U)
    ensures settled'.Keys == visited && visited <= U
    ensures |U - visited| < |U - settled.Keys|
  {
    assert settled'.Keys == visited;
    PopNew(floors, sc, start, end, queue, settled, level, settled', pushed);
    Progress(floors, sc, U, queue, settled.Keys, visited, pushed);
  }

  /** The expand step stays inside `U` and visits one more of its locations. */
  lemma Progress(floors: FloorMap, sc: Connections, U: set<Loc>,
                 queue: seq<Entry>, visited: set<Loc>, visited': set<Loc>, pushed: seq<Entry>)
    requires InSpace(queue, U) && visited <= U
    requires forall l, t :: t in Moves(floors, sc, l) ==> t in U
    requires queue != [] && queue[0].At() !in visited && visited' == visited + {queue[0].At()}
    requires pushed == Pushes(floors, queue[0], Moves(floors, sc, queue[0].At()), visited')
    ensures InSpace(queue[1..] + pushed, U) && visited' <= U
    ensures |U - visited'| < |U - visited|
  {
    PushesInSpace(floors, queue[0], Moves(floors, sc, queue[0].At()), visited', U);
    InSpaceStep(queue, pushed, U);
    assert U - visited == (U - visited') + {queue[0].At()};
  }
}
