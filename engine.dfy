/** The grid engine, `State<a, b>` (src/main.cpp:107-322): an a-by-b grid
    of cells, the snake's segments (head first), its heading and the
    chosen layout, with the operations the game loop calls on them. */
module Engine {
  import opened Geometry
  import opened Snake
  import opened Layouts

  class State {
    /** The grid's width and height, template parameters in the source. */
    const a: nat
    const b: nat
    /** `grid[a][b]`, indexed by column then row. */
    const grid: array2<Cell>
    var layout: Layout
    var dir: Direction
    /** `player.points`: the segments, head at index 0. */
    var points: seq<Point>

    function Dims(): Point
    {
      Point(a, b)
    }

    /** The grid has the declared, non-empty shape. */
    ghost predicate GridShaped()
      reads this
    {
      0 < a && 0 < b && grid.Length0 == a && grid.Length1 == b
    }

    /** The object invariant: a shaped grid and a snake of at least one
        segment whose head is on the grid. The other segments are not
        constrained: the tail appended on growth is not wrapped and can
        lie off the grid until the next move drops it. */
    ghost predicate Valid()
      reads this
    {
      GridShaped() && |points| >= 1 && InGrid(points[0], Dims())
    }

    /** A fresh state in the given layout, brought to its start by
        `Reset`. */
    constructor (a: nat, b: nat, layout: Layout)
      requires 0 < a && 0 < b
      ensures Valid() && fresh(grid)
      ensures this.a == a && this.b == b && this.layout == layout
      ensures points == [Point(a / 2, b / 2)] && dir == Left
      ensures forall x, y :: 0 <= x < a && 0 <= y < b ==> grid[x, y] == LayoutCell(layout, a, b, x, y)
    {
      this.a := a;
      this.b := b;
      this.layout := layout;
      grid := new Cell[a, b];
      points := [Point(a / 2, b / 2)];
      dir := Left;
      new;
      Reset();
    }

    /** `is_player` (src/main.cpp:129-133): whether a segment is on the
        cell (x, y). */
    function IsPlayer(x: nat, y: nat): (r: bool)
      reads this
      ensures r <==> Point(x, y) in points
      ensures r <==> exists i :: 0 <= i < |points| && points[i] == Point(x, y)
    {
      FindIndex(points, Point(x, y)) < |points|
    }

    /** `update_player_head` (src/main.cpp:209-228). Returns true, changing
        nothing, when the wrapped next head is on a segment (the tail
        included) or on a wall; otherwise moves the head there, shifts every
        other segment into the place of the one before it, and returns
        false. The grid is never written. */
    method UpdatePlayerHead() returns (collided: bool)
      requires Valid()
      modifies this`points
      ensures Valid() && unchanged(grid)
      ensures var newHead := NextHead(old(points)[0], dir, Dims());
        collided == (newHead in old(points) || grid[newHead.x, newHead.y] == Wall)
      ensures collided ==> points == old(points)
      ensures !collided ==> points == Shifted(old(points), NextHead(old(points)[0], dir, Dims()))
    {
      var oldPosition := points[0];
      var newPosition := NextHead(oldPosition, dir, Dims());
      if IsPlayer(newPosition.x, newPosition.y) || grid[newPosition.x, newPosition.y] == Wall {
        return true;
      }
      points := points[0 := newPosition];
      var i := 1;
      while i < |points|
        invariant 1 <= i <= |points| == |old(points)|
        invariant points[0] == newPosition
        invariant forall k :: 1 <= k < i ==> points[k] == old(points)[k - 1]
        invariant forall k :: i <= k < |points| ==> points[k] == old(points)[k]
        invariant oldPosition == old(points)[i - 1]
      {
        var cpy := points[i];
        points := points[i := oldPosition];
        oldPosition := cpy;
        i := i + 1;
      }
      return false;
    }

    /** `player_fruit_collision` (src/main.cpp:254-274). If the head is on
        fruit, that cell becomes empty and `GrowthTail` is appended behind
        the otherwise unchanged segments; otherwise nothing changes. */
    method PlayerFruitCollision()
      requires Valid()
      modifies this`points, grid
      ensures Valid()
      ensures var h := old(points)[0];
        if old(grid[h.x, h.y]) == Fruit then
          grid[h.x, h.y] == Empty && points == old(points) + [GrowthTail(old(points), dir)]
        else
          grid[h.x, h.y] == old(grid[h.x, h.y]) && points == old(points)
      ensures forall x, y :: 0 <= x < a && 0 <= y < b && Point(x, y) != old(points)[0] ==>
        grid[x, y] == old(grid[x, y])
    {
      var point := points[0];
      if grid[point.x, point.y] == Fruit {
        grid[point.x, point.y] := Empty;
        if |points| == 1 {
          points := points + [Add(Scale(Unit(dir), -1), point)];
        } else {
          var last1 := points[|points| - 1];
          var last2 := points[|points| - 2];
          points := points + [Add(last1, Sub(last1, last2))];
        }
      }
    }

    /** A cell a random placement may take: not holding `blocker` and not
        under the snake. */
    predicate Eligible(x: nat, y: nat, blocker: Cell)
      requires GridShaped() && x < a && y < b
      reads this, grid
      ensures Eligible(x, y, blocker) <==> grid[x, y] != blocker && Point(x, y) !in points
    {
      grid[x, y] != blocker && !IsPlayer(x, y)
    }

    /** The rejection-sampling loop of `make_rand_fruit` and
        `make_rand_wall`: `draws` stands for the successive pairs of
        `rand()` results; each pair is reduced modulo the grid's sides and
        the first cell that is `Eligible` is taken. */
    method Sample(draws: seq<(nat, nat)>, blocker: Cell) returns (k: nat, x: nat, y: nat)
      requires Valid()
      requires exists i :: 0 <= i < |draws| && Eligible(draws[i].0 % a, draws[i].1 % b, blocker)
      ensures k < |draws| && x == draws[k].0 % a && y == draws[k].1 % b
      ensures x < a && y < b && Eligible(x, y, blocker)
      ensures forall j :: 0 <= j < k ==> !Eligible(draws[j].0 % a, draws[j].1 % b, blocker)
    {
      k := 0;
      x := draws[0].0 % a;
      y := draws[0].1 % b;
      while grid[x, y] == blocker || IsPlayer(x, y)
        invariant k < |draws| && x == draws[k].0 % a && y == draws[k].1 % b
        invariant forall j :: 0 <= j < k ==> !Eligible(draws[j].0 % a, draws[j].1 % b, blocker)
        invariant exists i :: k <= i < |draws| && Eligible(draws[i].0 % a, draws[i].1 % b, blocker)
        decreases |draws| - k
      {
        k := k + 1;
        x := draws[k].0 % a;
        y := draws[k].1 % b;
      }
    }

    /** `make_rand_fruit` (src/main.cpp:230-240): puts fruit on the first
        drawn cell that is neither a wall nor under the snake; no other cell
        changes. Returns the index of the draw taken. */
    method MakeRandFruit(draws: seq<(nat, nat)>) returns (k: nat)
      requires Valid()
      requires exists i :: 0 <= i < |draws| && Eligible(draws[i].0 % a, draws[i].1 % b, Wall)
      modifies grid
      ensures k < |draws|
      ensures forall j :: 0 <= j < k ==> !old(Eligible(draws[j].0 % a, draws[j].1 % b, Wall))
      ensures var x, y := draws[k].0 % a, draws[k].1 % b;
        old(grid[x, y]) != Wall && Point(x, y) !in points && grid[x, y] == Fruit &&
        forall i, j :: 0 <= i < a && 0 <= j < b && (i != x || j != y) ==> grid[i, j] == old(grid[i, j])
    {
      var x, y;
      k, x, y := Sample(draws, Wall);
      grid[x, y] := Fruit;
    }

    /** `make_rand_wall` (src/main.cpp:242-252): puts a wall on the first
        drawn cell that is neither fruit nor under the snake; no other cell
        changes. Returns the index of the draw taken. */
    method MakeRandWall(draws: seq<(nat, nat)>) returns (k: nat)
      requires Valid()
      requires exists i :: 0 <= i < |draws| && Eligible(draws[i].0 % a, draws[i].1 % b, Fruit)
      modifies grid
      ensures k < |draws|
      ensures forall j :: 0 <= j < k ==> !old(Eligible(draws[j].0 % a, draws[j].1 % b, Fruit))
      ensures var x, y := draws[k].0 % a, draws[k].1 % b;
        old(grid[x, y]) != Fruit && Point(x, y) !in points && grid[x, y] == Wall &&
        forall i, j :: 0 <= i < a && 0 <= j < b && (i != x || j != y) ==> grid[i, j] == old(grid[i, j])
    {
      var x, y;
      k, x, y := Sample(draws, Fruit);
      grid[x, y] := Wall;
    }

    /** One border column of `reset`'s wall loops: walls the cells of
        column x whose index the layout walls. */
    method WallColumn(x: nat)
      requires GridShaped() && x < a
      modifies grid
      ensures forall i, j :: 0 <= i < a && 0 <= j < b ==>
        grid[i, j] == if i == x && EdgeWall(layout, j, b) then Wall else old(grid[i, j])
    {
      for j := 0 to b
        invariant forall i, j' :: 0 <= i < a && 0 <= j' < b ==>
          grid[i, j'] == if i == x && j' < j && EdgeWall(layout, j', b) then Wall else old(grid[i, j'])
      {
        if EdgeWall(layout, j, b) {
          grid[x, j] := Wall;
        }
      }
    }

    /** One border row of `reset`'s wall loops: walls the cells of row y
        whose index the layout walls. */
    method WallRow(y: nat)
      requires GridShaped() && y < b
      modifies grid
      ensures forall i, j :: 0 <= i < a && 0 <= j < b ==>
        grid[i, j] == if j == y && EdgeWall(layout, i, a) then Wall else old(grid[i, j])
    {
      for i := 0 to a
        invariant forall i', j :: 0 <= i' < a && 0 <= j < b ==>
          grid[i', j] == if j == y && i' < i && EdgeWall(layout, i', a) then Wall else old(grid[i', j])
      {
        if EdgeWall(layout, i, a) {
          grid[i, y] := Wall;
        }
      }
    }

    /** `reset` (src/main.cpp:276-321): one segment at (a / 2, b / 2)
        heading left, the grid cleared and then walled as the layout
        says. */
    method Reset()
      requires GridShaped()
      modifies this`points, this`dir, grid
      ensures Valid()
      ensures points == [Point(a / 2, b / 2)] && dir == Left
      ensures forall x, y :: 0 <= x < a && 0 <= y < b ==> grid[x, y] == LayoutCell(layout, a, b, x, y)
    {
      points := [Point(a / 2, b / 2)];
      dir := Left;
      forall x, y | 0 <= x < a && 0 <= y < b {
        grid[x, y] := Empty;
      }
      if layout != Unlimited {
        WallColumn(0);
        WallColumn(a - 1);
        WallRow(0);
        WallRow(b - 1);
      }
    }

    /** The heading-acceptance check of the game loop
        (src/main.cpp:458-461): take the requested heading unless the
        snake has more than one segment and the move would land on its
        second segment. */
    method Steer(requested: Direction)
      requires Valid()
      modifies this`dir
      ensures dir == NextHeading(points, old(dir), requested, Dims())
      ensures |points| == 1 ==> dir == requested
    {
      if !(|points| > 1 && NextHead(points[0], requested, Dims()) == points[1]) {
        dir := requested;
      }
    }

    /** One movement tick of the game loop (src/main.cpp:458-467): settle
        the heading, move, and then resolve fruit at the head's cell, which
        is the new one unless the move collided. */
    method Advance(requested: Direction) returns (collided: bool)
      requires Valid()
      modifies this`points, this`dir, grid
      ensures Valid()
      ensures dir == NextHeading(old(points), old(dir), requested, Dims())
      ensures var newHead := NextHead(old(points)[0], dir, Dims());
        collided == (newHead in old(points) || old(grid[newHead.x, newHead.y]) == Wall)
      ensures var moved := if collided then old(points) else Shifted(old(points), NextHead(old(points)[0], dir, Dims()));
        points == if old(grid[moved[0].x, moved[0].y]) == Fruit then moved + [GrowthTail(moved, dir)] else moved
      ensures var moved := if collided then old(points) else Shifted(old(points), NextHead(old(points)[0], dir, Dims()));
        forall x, y :: 0 <= x < a && 0 <= y < b ==>
          grid[x, y] == if Point(x, y) == moved[0] && old(grid[x, y]) == Fruit then Empty else old(grid[x, y])
    {
      Steer(requested);
      collided := UpdatePlayerHead();
      PlayerFruitCollision();
    }
  }

  /** Under WALLS the wrap-around of a move is unreachable: from a cell off
      the border a step never wraps, and a step that does not hit a wall
      stays off the border. */
  lemma WallsMakeWrapUnreachable(head: Point, d: Direction, a: nat, b: nat)
    requires 0 < head.x < a - 1 && 0 < head.y < b - 1
    ensures var n := NextHead(head, d, Point(a, b));
      n == Add(head, Unit(d)) &&
      (LayoutCell(Walls, a, b, n.x, n.y) != Wall ==> 0 < n.x < a - 1 && 0 < n.y < b - 1)
  {
    NextHeadInterior(head, d, Point(a, b));
    var n := NextHead(head, d, Point(a, b));
    WallsIsBorder(a, b, n.x, n.y);
  }
}
