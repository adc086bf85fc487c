/** Cell kinds and the arenas `reset` builds, each described cell by cell
    in closed form. */
module Layouts {

  /** `Type` (src/main.cpp:32-37): what a grid cell holds. */
  datatype Cell = Empty | Wall | Fruit

  /** `State::Layout` (src/main.cpp:114-119). */
  datatype Layout = Unlimited | Walls | WalledGarden

  /** Whether the cell at index `i` along an edge of length `n` is walled:
      every edge cell under WALLS, and under WALLED_GARDEN only those
      before `n / 3` or after `n * 2 / 3` (integer division), which leaves
      a doorway in the middle third. */
  predicate EdgeWall(layout: Layout, i: nat, n: nat)
    ensures EdgeWall(layout, i, n) ==> layout != Unlimited
    ensures layout == Walls ==> EdgeWall(layout, i, n)
    ensures layout == WalledGarden && i == n / 2 ==> !EdgeWall(layout, i, n)
    ensures layout == WalledGarden && n >= 3 && i == 0 ==> EdgeWall(layout, i, n)
  {
    MiddleIndexInMiddleThird(n);
    match layout
    case Unlimited => false
    case Walls => true
    case WalledGarden => i > n * 2 / 3 || i < n / 3
  }

  /** The cell at (x, y) of an a-by-b grid right after `reset`: a wall
      where a column edge (x = 0 or x = a - 1) walls index y, or a row edge
      (y = 0 or y = b - 1) walls index x; empty everywhere else. */
  function LayoutCell(layout: Layout, a: nat, b: nat, x: nat, y: nat): (r: Cell)
    requires 0 < a && 0 < b
    ensures r != Fruit
    ensures r == Wall ==> x == 0 || x == a - 1 || y == 0 || y == b - 1
  {
    if ((x == 0 || x == a - 1) && EdgeWall(layout, y, b))
      || ((y == 0 || y == b - 1) && EdgeWall(layout, x, a))
    then Wall
    else Empty
  }

  /** UNLIMITED leaves the whole grid empty. */
  lemma UnlimitedIsOpen(a: nat, b: nat, x: nat, y: nat)
    requires 0 < a && 0 < b && x < a && y < b
    ensures LayoutCell(Unlimited, a, b, x, y) == Empty
  {
  }

  /** WALLS walls a cell exactly when it lies on one of the four edges. */
  lemma WallsIsBorder(a: nat, b: nat, x: nat, y: nat)
    requires 0 < a && 0 < b && x < a && y < b
    ensures LayoutCell(Walls, a, b, x, y) == Wall
        <==> x == 0 || x == a - 1 || y == 0 || y == b - 1
    ensures LayoutCell(Walls, a, b, x, y) != Wall ==> LayoutCell(Walls, a, b, x, y) == Empty
  {
  }

  /** Under WALLED_GARDEN a cell of a column edge that is not also on a row
      edge is a wall exactly when its index is outside the middle third;
      likewise for the row edges. */
  lemma GardenEdges(a: nat, b: nat, x: nat, y: nat)
    requires 0 < a && 0 < b && x < a && y < b
    ensures (x == 0 || x == a - 1) && 0 < y < b - 1 ==>
      (LayoutCell(WalledGarden, a, b, x, y) == Wall <==> y < b / 3 || y > b * 2 / 3)
    ensures (y == 0 || y == b - 1) && 0 < x < a - 1 ==>
      (LayoutCell(WalledGarden, a, b, x, y) == Wall <==> x < a / 3 || x > a * 2 / 3)
  {
  }

  /** The middle index of an edge lies in its middle third. */
  lemma MiddleIndexInMiddleThird(n: nat)
    ensures n / 3 <= n / 2 <= n * 2 / 3
  {
    var t, h := n / 3, n / 2;
    assert 3 * t <= n < 3 * t + 3;
    assert 2 * h <= n < 2 * h + 2;
    var w := n * 2 / 3;
    assert 3 * w <= 2 * n < 3 * w + 3;
  }

  /** On a grid at least 3 by 3, WALLED_GARDEN leaves a doorway in the
      middle of each of the four edges and walls the corner at the origin;
      the other three corners are walled once both sides are at least 4
      long. */
  lemma GardenDoorways(a: nat, b: nat)
    requires a >= 3 && b >= 3
    ensures LayoutCell(WalledGarden, a, b, 0, b / 2) == Empty
    ensures LayoutCell(WalledGarden, a, b, a - 1, b / 2) == Empty
    ensures LayoutCell(WalledGarden, a, b, a / 2, 0) == Empty
    ensures LayoutCell(WalledGarden, a, b, a / 2, b - 1) == Empty
    ensures LayoutCell(WalledGarden, a, b, 0, 0) == Wall
    ensures a >= 4 && b >= 4 ==>
      LayoutCell(WalledGarden, a, b, a - 1, b - 1) == Wall &&
      LayoutCell(WalledGarden, a, b, 0, b - 1) == Wall &&
      LayoutCell(WalledGarden, a, b, a - 1, 0) == Wall
  {
    if a >= 4 && b >= 4 {
      FarEndWalled(a);
      FarEndWalled(b);
    }
  }

  /** The last index of an edge at least 4 long is past its middle third. */
  lemma FarEndWalled(n: nat)
    requires n >= 4
    ensures n - 1 > n * 2 / 3
  {
    var w := n * 2 / 3;
    assert 3 * w <= 2 * n;
  }

  /** The walled stretch before the doorway holds `n / 3` cells and the one
      after it `n - 1 - n * 2 / 3`: when `n` is a multiple of 3 the far
      stretch is one cell shorter, so on a 3-by-3 grid the corner
      opposite the origin stays empty. */
  lemma GardenFarCornerOpenOnThree()
    ensures LayoutCell(WalledGarden, 3, 3, 2, 2) == Empty
    ensures LayoutCell(WalledGarden, 3, 3, 0, 0) == Wall
  {
  }
}
