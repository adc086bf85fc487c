/** Integer geometry of the snake grid: the C++ remainder and the
    non-negative `mod` built on it, points with their vector operators,
    and the four headings with their unit vectors. */
module Geometry {

  function Abs(n: int): (r: int)
    ensures r >= 0 && (r == n || r == -n)
  {
    if n < 0 then -n else n
  }

  // ---------------------------------------------------------------------
  // Remainders
  // ---------------------------------------------------------------------

  /** `a % b` as C++ evaluates it: the quotient is truncated toward zero,
      so a non-zero remainder takes the sign of the dividend `a`. */
  function CRem(a: int, b: int): (r: int)
    requires b != 0
    ensures a >= 0 ==> 0 <= r < Abs(b)
    ensures a <= 0 ==> -Abs(b) < r <= 0
  {
    if a >= 0 then a % Abs(b) else -((-a) % Abs(b))
  }

  /** A positive multiple of a non-negative number is at least that number. */
  lemma {:induction false} MulAtLeast(k: int, n: int)
    requires k >= 1 && n >= 0
    ensures k * n >= n
    decreases k
  {
    if k > 1 {
      MulAtLeast(k - 1, n);
      assert k * n == (k - 1) * n + n;
    }
  }

  /** Euclidean division is determined by any quotient/remainder pair
      with the remainder in [0, n). */
  lemma ModUnique(z: int, n: int, q: int, r: int)
    requires n > 0 && 0 <= r < n && z == q * n + r
    ensures z % n == r && z / n == q
  {
    var q', r' := z / n, z % n;
    assert (q - q') * n == r' - r;
    if q > q' {
      MulAtLeast(q - q', n);
    } else if q < q' {
      MulAtLeast(q' - q, n);
    }
  }

  /** Adding a multiple of the divisor leaves the Euclidean residue alone. */
  lemma ModShift(x: int, k: int, n: int)
    requires n > 0
    ensures (x + k * n) % n == x % n
  {
    var q, r := x / n, x % n;
    assert x + k * n == (q + k) * n + r;
    ModUnique(x + k * n, n, q + k, r);
  }

  /** The C++ remainder leaves the same Euclidean residue as its dividend. */
  lemma CRemCongruent(a: int, b: int)
    requires b != 0
    ensures CRem(a, b) % Abs(b) == a % Abs(b)
  {
    var n := Abs(b);
    var r := CRem(a, b);
    if a >= 0 {
      ModUnique(r, n, 0, r);
    } else {
      var q, m := (-a) / n, (-a) % n;
      assert a == -q * n - m;
      assert r == -m;
      ModShift(r, -q, n);
      assert a == r + (-q) * n;
    }
  }

  /** `mod` (src/main.cpp:27-30): `(a % b + b) % b` with C++'s remainder. */
  function Mod(a: int, b: int): (r: int)
    requires b != 0
    ensures b > 0 ==> 0 <= r < b
    ensures b < 0 ==> b < r <= 0
    ensures r % Abs(b) == a % Abs(b)
  {
    var inner := CRem(a, b);
    CRemCongruent(a, b);
    CRemCongruent(inner + b, b);
    if b > 0 then
      ModShift(inner, 1, b);
      CRem(inner + b, b)
    else
      ModShift(inner, -1, Abs(b));
      CRem(inner + b, b)
  }

  /** For a positive divisor the C++ `mod` is exactly Euclidean `%`. */
  lemma ModIsEuclidean(a: int, b: int)
    requires b > 0
    ensures Mod(a, b) == a % b
  {
    var r := Mod(a, b);
    ModUnique(r, b, 0, r);
  }

  /** A coordinate already in [0, b) is left where it is. */
  lemma ModInRange(a: int, b: int)
    requires 0 <= a < b
    ensures Mod(a, b) == a
  {
    ModIsEuclidean(a, b);
    ModUnique(a, b, 0, a);
  }

  /** Reducing before adding an offset leaves the Euclidean residue alone. */
  lemma ResidueAddCongruent(y: int, c: int, n: int)
    requires n > 0
    ensures (y % n + c) % n == (y + c) % n
  {
    var q, r := y / n, y % n;
    assert r + c + q * n == y + c;
    ModShift(r + c, q, n);
  }

  /** Wrapping before adding an offset lands where adding first does. */
  lemma ModAddCongruent(y: int, c: int, n: int)
    requires n > 0
    ensures Mod(Mod(y, n) + c, n) == Mod(y + c, n)
  {
    ModIsEuclidean(y, n);
    ModIsEuclidean(Mod(y, n) + c, n);
    ModIsEuclidean(y + c, n);
    ResidueAddCongruent(y, c, n);
  }

  // ---------------------------------------------------------------------
  // Points
  // ---------------------------------------------------------------------

  /** `Point` (src/main.cpp:47-105): an integer vector. */
  datatype Point = Point(x: int, y: int)

  /** `Point + Point`: subtracting either summand back recovers the other,
      and the origin is the identity. */
  function Add(p: Point, q: Point): (r: Point)
    ensures r.x - q.x == p.x && r.y - q.y == p.y
    ensures r.x - p.x == q.x && r.y - p.y == q.y
  {
    Point(p.x + q.x, p.y + q.y)
  }

  /** `Point - Point`: the vector that, added to `q`, reaches `p`. */
  function Sub(p: Point, q: Point): (r: Point)
    ensures q.x + r.x == p.x && q.y + r.y == p.y
  {
    Point(p.x - q.x, p.y - q.y)
  }

  /** Component-wise product, `Point * Point`: by a vector with equal
      components it is the scalar product, so the all-ones vector is the
      identity. */
  function Mul(p: Point, q: Point): (r: Point)
    ensures q.x == q.y ==> r == Scale(p, q.x)
    ensures q == Point(1, 1) ==> r == p
  {
    Point(p.x * q.x, p.y * q.y)
  }

  /** Scalar product, `Point * int`: by 1 the identity, by 0 the origin,
      and by -1 the vector that cancels `p`. */
  function Scale(p: Point, m: int): (r: Point)
    ensures m == 1 ==> r == p
    ensures m == -1 ==> p.x + r.x == 0 && p.y + r.y == 0
  {
    Point(p.x * m, p.y * m)
  }

  /** `Point % Point`: each coordinate through `mod`. For a positive grid
      size the result is a cell of the grid, in the same residue class as
      `p` on both axes. */
  function ModPoint(p: Point, dims: Point): (r: Point)
    requires dims.x != 0 && dims.y != 0
    ensures dims.x > 0 && dims.y > 0 ==>
      InGrid(r, dims) && r.x % dims.x == p.x % dims.x && r.y % dims.y == p.y % dims.y
  {
    Point(Mod(p.x, dims.x), Mod(p.y, dims.y))
  }

  /** A cell of an `dims.x` by `dims.y` grid. */
  predicate InGrid(p: Point, dims: Point)
  {
    0 <= p.x < dims.x && 0 <= p.y < dims.y
  }

  /** Wrapping leaves a cell already on the grid where it is. */
  lemma ModPointFixesGrid(p: Point, dims: Point)
    requires dims.x > 0 && dims.y > 0 && InGrid(p, dims)
    ensures ModPoint(p, dims) == p
  {
    ModInRange(p.x, dims.x);
    ModInRange(p.y, dims.y);
  }

  /** Wrapping, then stepping by `v`, then wrapping again, is the same as
      stepping first and wrapping once. */
  lemma ModPointAddCongruent(p: Point, v: Point, dims: Point)
    requires dims.x > 0 && dims.y > 0
    ensures ModPoint(Add(ModPoint(p, dims), v), dims) == ModPoint(Add(p, v), dims)
  {
    ModAddCongruent(p.x, v.x, dims.x);
    ModAddCongruent(p.y, v.y, dims.y);
  }

  // ---------------------------------------------------------------------
  // Directions
  // ---------------------------------------------------------------------

  /** `Direction` (src/main.cpp:39-45). */
  datatype Direction = Up | Left | Right | Down

  /** The enumerator values: positive for the headings towards the origin
      (up and left), of magnitude 1 for the vertical headings and 2 for the
      horizontal ones. */
  function Code(d: Direction): (r: int)
    ensures r > 0 ==> Unit(d).x + Unit(d).y == -1
    ensures r < 0 ==> Unit(d).x + Unit(d).y == 1
    ensures Abs(r) == if Unit(d).x == 0 then 1 else 2
  {
    match d
    case Up => 1
    case Left => 2
    case Right => -2
    case Down => -1
  }

  /** `Point(Direction)` (src/main.cpp:87-104); y grows downwards. */
  function Unit(d: Direction): (u: Point)
    ensures Abs(u.x) + Abs(u.y) == 1
  {
    match d
    case Up => Point(0, -1)
    case Down => Point(0, 1)
    case Left => Point(-1, 0)
    case Right => Point(1, 0)
  }

  function Opposite(d: Direction): Direction
  {
    match d
    case Up => Down
    case Down => Up
    case Left => Right
    case Right => Left
  }

  /** Two headings have negated enumerator values exactly when their unit
      vectors are negations of each other, and that pairs each heading with
      its opposite. */
  lemma NegatedCodesAreOpposite(d: Direction, e: Direction)
    ensures Code(d) == -Code(e) <==> Unit(d) == Scale(Unit(e), -1)
    ensures Code(d) == -Code(e) <==> d == Opposite(e)
  {
    match e
    case Up =>
    case Down =>
    case Left =>
    case Right =>
  }

  /** Distinct headings have distinct codes and distinct unit vectors. */
  lemma DirectionsDistinct(d: Direction, e: Direction)
    ensures Code(d) == Code(e) <==> d == e
    ensures Unit(d) == Unit(e) <==> d == e
  {
  }
}
