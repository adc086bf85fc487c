/** The snake's body as a list of cells, head first, and the pure rules
    the engine applies to it: finding a segment, the wrapped next head,
    the one-step shift of a move, the tail appended on growth, and the
    rule that refuses turning back into the neck. */
module Snake {
  import opened Geometry

  /** `std::find` over the segments as `is_player` uses it: the index of
      the first segment equal to `p`, or `|s|` when there is none. */
  function FindIndex(s: seq<Point>, p: Point): (r: nat)
    ensures r <= |s|
    ensures r < |s| ==> s[r] == p
    ensures forall j :: 0 <= j < r ==> s[j] != p
    ensures r == |s| <==> p !in s
  {
    if s == [] then 0
    else if s[0] == p then 0
    else 1 + FindIndex(s[1..], p)
  }

  /** The cell the head moves to: one step along the heading, wrapped
      around the grid, `(head + Point{dir}) % Point{a, b}`. */
  function NextHead(head: Point, dir: Direction, dims: Point): (r: Point)
    requires dims.x > 0 && dims.y > 0
    ensures InGrid(r, dims)
    ensures r.x % dims.x == (head.x + Unit(dir).x) % dims.x
    ensures r.y % dims.y == (head.y + Unit(dir).y) % dims.y
  {
    ModPoint(Add(head, Unit(dir)), dims)
  }

  /** Away from the grid's edges a step does not wrap. */
  lemma NextHeadInterior(head: Point, dir: Direction, dims: Point)
    requires dims.x > 0 && dims.y > 0
    requires 0 < head.x < dims.x - 1 && 0 < head.y < dims.y - 1
    ensures NextHead(head, dir, dims) == Add(head, Unit(dir))
  {
    ModPointFixesGrid(Add(head, Unit(dir)), dims);
  }

  /** Moving off any edge re-enters at the opposite edge. */
  lemma NextHeadWrapsAtEdges(head: Point, dims: Point)
    requires dims.x > 0 && dims.y > 0 && InGrid(head, dims)
    ensures head.x == 0 ==> NextHead(head, Left, dims) == Point(dims.x - 1, head.y)
    ensures head.x == dims.x - 1 ==> NextHead(head, Right, dims) == Point(0, head.y)
    ensures head.y == 0 ==> NextHead(head, Up, dims) == Point(head.x, dims.y - 1)
    ensures head.y == dims.y - 1 ==> NextHead(head, Down, dims) == Point(head.x, 0)
  {
    ModIsEuclidean(-1, dims.x);
    ModUnique(-1, dims.x, -1, dims.x - 1);
    ModIsEuclidean(-1, dims.y);
    ModUnique(-1, dims.y, -1, dims.y - 1);
    ModIsEuclidean(dims.x, dims.x);
    ModUnique(dims.x, dims.x, 1, 0);
    ModIsEuclidean(dims.y, dims.y);
    ModUnique(dims.y, dims.y, 1, 0);
    ModInRange(head.x, dims.x);
    ModInRange(head.y, dims.y);
  }

  /** Stepping back along the opposite heading undoes a step: from the
      cell `NextHead(p, d)` the move `Opposite(d)` returns to `p`. */
  lemma StepBackReturns(p: Point, d: Direction, dims: Point)
    requires dims.x > 0 && dims.y > 0 && InGrid(p, dims)
    ensures NextHead(NextHead(p, d, dims), Opposite(d), dims) == p
  {
    var u := Unit(d);
    assert Unit(Opposite(d)) == Scale(u, -1);
    ModPointAddCongruent(Add(p, u), Scale(u, -1), dims);
    assert Add(Add(p, u), Scale(u, -1)) == p;
    ModPointFixesGrid(p, dims);
  }

  /** The segments after a successful move: the new head in front, every
      other segment taking the place of the one before it, and the old
      tail dropped. */
  function Shifted(points: seq<Point>, newHead: Point): (r: seq<Point>)
    requires |points| >= 1
    ensures |r| == |points|
    ensures r[0] == newHead
    ensures forall i :: 1 <= i < |r| ==> r[i] == points[i - 1]
  {
    [newHead] + points[..|points| - 1]
  }

  /** No two segments share a cell. */
  predicate Distinct(s: seq<Point>)
  {
    forall i, j :: 0 <= i < j < |s| ==> s[i] != s[j]
  }

  /** A successful move leaves no two segments on one cell as long as the
      segments it keeps (all but the last) were apart: the new head is on
      no current segment, and the last segment is dropped. So an overlap
      between the last segment and another, which growth can create, is
      gone after the next successful move. */
  lemma ShiftKeepsDistinct(points: seq<Point>, newHead: Point)
    requires |points| >= 1 && Distinct(points[..|points| - 1]) && newHead !in points
    ensures Distinct(Shifted(points, newHead))
  {
    var r := Shifted(points, newHead);
    var kept := points[..|points| - 1];
    forall i, j | 0 <= i < j < |r|
      ensures r[i] != r[j]
    {
      if i == 0 {
        assert r[j] == points[j - 1];
      } else {
        assert r[i] == kept[i - 1] && r[j] == kept[j - 1];
      }
    }
  }

  /** The segment appended when the snake eats (src/main.cpp:261-271):
      behind the head against the heading for a one-segment snake,
      otherwise one more step along the vector from the second-last
      segment to the last. The result is not wrapped onto the grid. */
  function GrowthTail(points: seq<Point>, dir: Direction): (r: Point)
    requires |points| >= 1
    ensures |points| == 1 ==> r == Sub(points[0], Unit(dir)) && Add(r, Unit(dir)) == points[0]
    ensures |points| >= 2 ==>
      Sub(r, points[|points| - 1]) == Sub(points[|points| - 1], points[|points| - 2])
  {
    if |points| == 1 then Add(Scale(Unit(dir), -1), points[0])
    else
      var last, secondLast := points[|points| - 1], points[|points| - 2];
      Add(last, Sub(last, secondLast))
  }

  /** On the torus the appended cell is still the right one: wrapped, the
      tail of a one-segment snake is the cell a step along the heading
      leads from to the head, and a longer snake's tail is the cell its
      last segment would step back into if it kept the same unit step. */
  lemma GrowthTailWrapped(points: seq<Point>, dir: Direction, d: Direction, dims: Point)
    requires dims.x > 0 && dims.y > 0 && |points| >= 1
    requires forall i :: 0 <= i < |points| ==> InGrid(points[i], dims)
    requires |points| >= 2 ==> points[|points| - 2] == NextHead(points[|points| - 1], d, dims)
    ensures |points| == 1 ==>
      NextHead(ModPoint(GrowthTail(points, dir), dims), dir, dims) == points[0]
    ensures |points| >= 2 ==>
      ModPoint(GrowthTail(points, dir), dims) == NextHead(points[|points| - 1], Opposite(d), dims)
  {
    if |points| == 1 {
      var h, u := points[0], Unit(dir);
      ModPointAddCongruent(Sub(h, u), u, dims);
      assert Add(Sub(h, u), u) == h;
      ModPointFixesGrid(h, dims);
    } else {
      var last, second := points[|points| - 1], points[|points| - 2];
      var u := Unit(d);
      var back := Unit(Opposite(d));
      assert back == Scale(u, -1);
      // second == ModPoint(last + u); the tail is last + (last - second).
      ModPointAddCongruent(Add(last, u), Sub(Sub(last, second), u), dims);
      assert Add(Add(last, u), Sub(Sub(last, second), u)) == Add(last, Sub(last, second));
      ModPointAddCongruent(second, Sub(Sub(last, second), u), dims);
      ModPointFixesGrid(second, dims);
      assert Add(second, Sub(Sub(last, second), u)) == Add(last, back);
    }
  }

  /** Unwrapped, the appended tail can lie off the grid: a one-segment
      snake on the left edge heading right, which has just wrapped there
      from the right edge, grows at x = -1, e.g. at (-1, 10) from (0, 10)
      on a 20-by-20 grid. */
  lemma GrowthTailMayLeaveGrid(head: Point, dims: Point)
    requires InGrid(head, dims) && head.x == 0
    ensures GrowthTail([head], Right) == Point(-1, head.y)
    ensures !InGrid(GrowthTail([head], Right), dims)
  {
  }

  /** On a 5-by-5 grid the body (2, 2), (2, 1), (2, 0), (1, 0), (1, 1),
      (0, 1), with no two segments on one cell, moves left from (2, 2) to
      (1, 2) without a collision. */
  lemma OverlapExampleMove()
    ensures Distinct([Point(2, 2), Point(2, 1), Point(2, 0), Point(1, 0), Point(1, 1), Point(0, 1)])
    ensures NextHead(Point(2, 2), Left, Point(5, 5)) == Point(1, 2)
    ensures Point(1, 2) !in [Point(2, 2), Point(2, 1), Point(2, 0), Point(1, 0), Point(1, 1), Point(0, 1)]
    ensures Shifted([Point(2, 2), Point(2, 1), Point(2, 0), Point(1, 0), Point(1, 1), Point(0, 1)], Point(1, 2))
         == [Point(1, 2), Point(2, 2), Point(2, 1), Point(2, 0), Point(1, 0), Point(1, 1)]
  {
    NextHeadInterior(Point(2, 2), Left, Point(5, 5));
  }

  /** Growth does not keep the segments apart. Had (1, 2) held fruit
      after the move of `OverlapExampleMove`, the tail appended behind
      (1, 1), continuing the step from (1, 0), would be (1, 2), the cell of
      the head. */
  lemma GrowthMayOverlapHead(moved: seq<Point>)
    requires moved == [Point(1, 2), Point(2, 2), Point(2, 1), Point(2, 0), Point(1, 0), Point(1, 1)]
    ensures GrowthTail(moved, Left) == moved[0] == Point(1, 2)
  {
    assert moved[|moved| - 1] == Point(1, 1) && moved[|moved| - 2] == Point(1, 0);
  }

  /** The heading-acceptance rule (src/main.cpp:458-461) refuses a
      requested heading when the snake has more than one segment and the
      move would put the head on the second segment. */
  predicate TurnsIntoNeck(points: seq<Point>, requested: Direction, dims: Point)
    requires dims.x > 0 && dims.y > 0 && |points| >= 1
    ensures TurnsIntoNeck(points, requested, dims) ==> |points| > 1 && InGrid(points[1], dims)
  {
    |points| > 1 && NextHead(points[0], requested, dims) == points[1]
  }

  /** The heading after the rule: the requested one unless refused, and a
      one-segment snake may take any heading, the backwards one included. */
  function NextHeading(points: seq<Point>, current: Direction, requested: Direction, dims: Point): (r: Direction)
    requires dims.x > 0 && dims.y > 0 && |points| >= 1
    ensures r == requested || r == current
    ensures r != requested <==> TurnsIntoNeck(points, requested, dims) && current != requested
    ensures |points| == 1 ==> r == requested
  {
    if TurnsIntoNeck(points, requested, dims) then current else requested
  }

  /** The heading the rule settles on never leads from the head onto the
      neck unless the current heading already did. */
  lemma NextHeadingAvoidsNeck(points: seq<Point>, current: Direction, requested: Direction, dims: Point)
    requires dims.x > 0 && dims.y > 0 && |points| >= 1
    ensures var h := NextHeading(points, current, requested, dims);
      TurnsIntoNeck(points, h, dims) ==> h == current
  {
  }

  /** If the head reached its cell from a neck on the grid by a step
      along `d`, the request to turn to `Opposite(d)` is the one that is
      refused: the heading stays as it was, whatever the rest of the body.
      A neck off the grid is never refused (`OffGridNeckNotRefused`). */
  lemma ReversalRefused(neck: Point, rest: seq<Point>, d: Direction, current: Direction, dims: Point)
    requires dims.x > 0 && dims.y > 0 && InGrid(neck, dims)
    ensures var points := [NextHead(neck, d, dims), neck] + rest;
      TurnsIntoNeck(points, Opposite(d), dims) &&
      NextHeading(points, current, Opposite(d), dims) == current
  {
    StepBackReturns(neck, d, dims);
  }

  /** The rule compares the wrapped target with the unwrapped neck. After
      the growth of `GrowthTailMayLeaveGrid` the segments are (0, 10) and
      (-1, 10). Turning left is then accepted: its target (19, 10) is not
      the neck, nor any segment, so the snake turns back through its neck. */
  lemma OffGridNeckNotRefused()
    ensures NextHead(Point(0, 10), Left, Point(20, 20)) == Point(19, 10)
    ensures Point(19, 10) !in [Point(0, 10), Point(-1, 10)]
    ensures !TurnsIntoNeck([Point(0, 10), Point(-1, 10)], Left, Point(20, 20))
    ensures NextHeading([Point(0, 10), Point(-1, 10)], Right, Left, Point(20, 20)) == Left
  {
    NextHeadWrapsAtEdges(Point(0, 10), Point(20, 20));
  }
}
