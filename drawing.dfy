/** The parts of a floor's SVG document that the graph builder reads, already
    extracted from the DOM: `<line>`, `<path>` and `<text>` elements with the
    attributes the program queries, and the wall records it keeps. */
module Drawing {
  import opened Wrappers
  import opened JsText
  import opened Geometry

  /** A `<line>`: its coordinates (`parseFloat(..) || 0`) and `stroke` attribute. */
  datatype Line = Line(x1: int, y1: int, x2: int, y2: int, stroke: Option<string>) {
    function Start(): Point {
      Point(x1, y1)
    }

    function End(): Point {
      Point(x2, y2)
    }
  }

  /** A `<path>`: its `d` attribute (`""` when absent) and `stroke` attribute. */
  datatype PathElement = PathElement(d: string, stroke: Option<string>)

  /** The first `<tspan>` of a `<text>`: its coordinates and `textContent`. */
  datatype Tspan = Tspan(x: int, y: int, text: string) {
    function Pos(): Point {
      Point(x, y)
    }
  }

  /** A `<text>`: its `fill` attribute and its first `<tspan>`, if any. */
  datatype TextElement = TextElement(fill: Option<string>, tspan: Option<Tspan>)

  /** `{ type: 'line', x1, y1, x2, y2 }` and `{ type: 'wall-path', d }`. */
  datatype Wall = LineWall(x1: int, y1: int, x2: int, y2: int) | PathWall(d: string)

  /** The reserved wall colour: `attr?.toLowerCase()` is `"red"` or `"#ff0000"`. */
  predicate IsRed(attr: Option<string>) {
    attr.Some? && (AsciiLower(attr.value) == "red" || AsciiLower(attr.value) == "#ff0000")
  }

  /** A colour is red exactly when it spells `red` or `#ff0000` in any mix of
      upper and lower case. */
  lemma IsRedSpelled(attr: Option<string>)
    ensures IsRed(attr) <==>
      attr.Some? && (SpellsIgnoringCase(attr.value, "red") || SpellsIgnoringCase(attr.value, "#ff0000"))
  {
    if attr.Some? {
      AsciiLowerSpells(attr.value, "red");
      AsciiLowerSpells(attr.value, "#ff0000");
    }
  }

  /** `d.trim()` is truthy. */
  predicate IsDrawn(d: string) {
    Trim(d) != ""
  }

  /** The walls the line loop collects: one per red line, in input order. */
  function LineWalls(lines: seq<Line>): seq<Wall> {
    if lines == [] then []
    else
      var l := lines[|lines| - 1];
      LineWalls(lines[..|lines| - 1]) + (if IsRed(l.stroke) then [LineWall(l.x1, l.y1, l.x2, l.y2)] else [])
  }

  /** The walls the path loop collects: one per red path with a non-blank `d`. */
  function PathWalls(paths: seq<PathElement>): seq<Wall> {
    if paths == [] then []
    else
      var p := paths[|paths| - 1];
      PathWalls(paths[..|paths| - 1]) + (if IsRed(p.stroke) && IsDrawn(p.d) then [PathWall(p.d)] else [])
  }

  /** The `walls` array `parseLinesToGraph` returns. */
  function WallsOf(lines: seq<Line>, paths: seq<PathElement>): seq<Wall> {
    LineWalls(lines) + PathWalls(paths)
  }

  /** How many lines are walkable (not red). */
  function WalkableCount(lines: seq<Line>): nat {
    if lines == [] then 0
    else WalkableCount(lines[..|lines| - 1]) + (if IsRed(lines[|lines| - 1].stroke) then 0 else 1)
  }

  /** A line wall is exactly a red line's coordinates. */
  lemma {:induction false} LineWallsMembers(lines: seq<Line>, w: Wall)
    ensures w in LineWalls(lines) <==>
      exists i :: 0 <= i < |lines| && IsRed(lines[i].stroke) &&
        w == LineWall(lines[i].x1, lines[i].y1, lines[i].x2, lines[i].y2)
  {
    if lines != [] {
      var init := lines[..|lines| - 1];
      LineWallsMembers(init, w);
      assert forall i :: 0 <= i < |init| ==> init[i] == lines[i];
    }
  }

  /** Path `p` is red, has a non-blank `d`, and `w` is its wall. */
  predicate DrawsWall(p: PathElement, w: Wall) {
    IsRed(p.stroke) && IsDrawn(p.d) && w == PathWall(p.d)
  }

  /** A path wall is exactly the `d` of a red path whose `d` is not blank;
      paths of any other colour leave no trace. */
  lemma {:induction false} PathWallsMembers(paths: seq<PathElement>, w: Wall)
    ensures w in PathWalls(paths) <==> exists i :: 0 <= i < |paths| && DrawsWall(paths[i], w)
  {
    if paths != [] {
      var init, last := paths[..|paths| - 1], paths[|paths| - 1];
      PathWallsMembers(init, w);
      if exists i :: 0 <= i < |paths| && DrawsWall(paths[i], w) {
        var i :| 0 <= i < |paths| && DrawsWall(paths[i], w);
        if i < |init| {
          assert init[i] == paths[i];
        }
      }
      if exists i :: 0 <= i < |init| && DrawsWall(init[i], w) {
        var i :| 0 <= i < |init| && DrawsWall(init[i], w);
        assert paths[i] == init[i];
      }
    }
  }

  /** Lines contribute one wall each when red, and never otherwise. */
  lemma {:induction false} LineWallsCount(lines: seq<Line>)
    ensures |LineWalls(lines)| + WalkableCount(lines) == |lines|
  {
    if lines != [] {
      LineWallsCount(lines[..|lines| - 1]);
    }
  }

  /** A parsed floor drawing: its `<line>`, `<path>` and `<text>` elements in
      document order. */
  datatype Svg = Svg(lines: seq<Line>, paths: seq<PathElement>, texts: seq<TextElement>)

  /** The labels `addFloor` leaves in the stored drawing: it removes every
      `<text>` whose fill is not red. */
  function RedLabels(texts: seq<TextElement>): seq<TextElement> {
    if texts == [] then []
    else RedLabels(texts[..|texts| - 1]) + (if IsRed(texts[|texts| - 1].fill) then [texts[|texts| - 1]] else [])
  }

  /** A label stays exactly when it is red, and the labels that stay keep their order. */
  lemma {:induction false} RedLabelsMembers(texts: seq<TextElement>)
    ensures forall t :: t in RedLabels(texts) <==> t in texts && IsRed(t.fill)
  {
    if texts != [] {
      RedLabelsMembers(texts[..|texts| - 1]);
      assert texts == texts[..|texts| - 1] + [texts[|texts| - 1]];
    }
  }

  lemma {:induction false} RedLabelsAppend(a: seq<TextElement>, b: seq<TextElement>)
    ensures RedLabels(a + b) == RedLabels(a) + RedLabels(b)
  {
    if b == [] {
      assert a + b == a;
    } else {
      var b' := b[..|b| - 1];
      assert (a + b)[..|a + b| - 1] == a + b';
      RedLabelsAppend(a, b');
    }
  }
}
