/** Board positions, the four sides of a tile, and the N x N grid the maze lives on.
    The game builds every position from integer loop counters, so positions are integers;
    +y is the top of the screen, -y the bottom, -x the left and +x the right. */
module Geometry {

  datatype Option<T> = None | Some(value: T)

  /** A position on the board (the tile's `positionOnBoard`). */
  datatype Point = Point(x: int, y: int)

  /** The four sides of a tile. */
  datatype Side = Top | Right | Bottom | Left

  function Opposite(s: Side): Side
  {
    match s
    case Top => Bottom
    case Right => Left
    case Bottom => Top
    case Left => Right
  }

  function Abs(i: int): nat
  {
    if i < 0 then -i else i
  }

  /** Manhattan distance between two positions. */
  function Distance(p: Point, q: Point): nat
  {
    Abs(p.x - q.x) + Abs(p.y - q.y)
  }

  /** The position one step away from `p` across side `s`. */
  function Neighbour(p: Point, s: Side): (q: Point)
    ensures Distance(p, q) == 1
  {
    match s
    case Top => Point(p.x, p.y + 1)
    case Right => Point(p.x + 1, p.y)
    case Bottom => Point(p.x, p.y - 1)
    case Left => Point(p.x - 1, p.y)
  }

  /** Every position at distance one is the neighbour across exactly one side. */
  lemma UnitStepIsNeighbour(p: Point, q: Point)
    requires Distance(p, q) == 1
    ensures exists s :: Neighbour(p, s) == q
  {
    if q.x < p.x {
      assert Neighbour(p, Left) == q;
    } else if q.x > p.x {
      assert Neighbour(p, Right) == q;
    } else if q.y < p.y {
      assert Neighbour(p, Bottom) == q;
    } else {
      assert Neighbour(p, Top) == q;
    }
  }

  /** Stepping back across the opposite side returns to the start. */
  lemma NeighbourOpposite(p: Point, s: Side)
    ensures Neighbour(Neighbour(p, s), Opposite(s)) == p
  {
  }

  /** Two sides of a position lead to the same neighbour only if they are the
      same side, so at most one branch of `isNextTile` applies to a move. */
  lemma NeighbourSideUnique(p: Point, s: Side, t: Side)
    requires Neighbour(p, s) == Neighbour(p, t)
    ensures s == t
  {
  }

  /** `p` lies on an N x N board. */
  predicate InGrid(n: int, p: Point)
  {
    0 <= p.x < n && 0 <= p.y < n
  }

  /** The tile container index of a position: `x + y*N`. */
  function Index(n: int, p: Point): int
  {
    p.x + p.y * n
  }

  lemma MulLeq(a: int, b: int, n: int)
    requires 0 <= a <= b && 0 <= n
    ensures a * n <= b * n
  {
  }

  /** Every position of the board has an index below N*N. */
  lemma {:induction false} IndexInRange(n: int, p: Point)
    requires InGrid(n, p)
    ensures 0 <= Index(n, p) < n * n
  {
    MulLeq(0, p.y, n);
    MulLeq(p.y + 1, n, n);
    assert (p.y + 1) * n == p.y * n + n;
  }

  /** Two positions of the board with the same index are the same position. */
  lemma {:induction false} IndexInjective(n: int, p: Point, q: Point)
    requires InGrid(n, p) && InGrid(n, q)
    requires Index(n, p) == Index(n, q)
    ensures p == q
  {
    if p.y < q.y {
      assert (p.y + 1) * n == p.y * n + n;
      MulLeq(p.y + 1, q.y, n);
      assert false;
    } else if q.y < p.y {
      assert (q.y + 1) * n == q.y * n + n;
      MulLeq(q.y + 1, p.y, n);
      assert false;
    }
  }

  /** A set of board positions that contains, with every position, all of that
      position's neighbours on the board. */
  ghost predicate ClosedUnderSteps(n: int, v: set<Point>)
  {
    forall p, s :: p in v && InGrid(n, Neighbour(p, s)) ==> Neighbour(p, s) in v
  }

  /** The board is connected: a step-closed set holding one board position holds
      every board position. */
  lemma {:induction false} ClosedSetCoversGrid(n: int, v: set<Point>, p: Point, q: Point)
    requires ClosedUnderSteps(n, v)
    requires p in v && InGrid(n, p) && InGrid(n, q)
    ensures q in v
    decreases Distance(p, q)
  {
    if p != q {
      var s := if p.x < q.x then Right else if p.x > q.x then Left else if p.y < q.y then Top else Bottom;
      var r := Neighbour(p, s);
      assert InGrid(n, r);
      assert r in v;
      ClosedSetCoversGrid(n, v, r, q);
    }
  }

  /** A corner of the N x N board. */
  predicate IsCorner(n: int, p: Point)
  {
    (p.x == 0 || p.x == n - 1) && (p.y == 0 || p.y == n - 1)
  }

  /** The exit corner for a draw in 0..3, clockwise from the top left:
      0 is (0, N-1), 1 is (N-1, N-1), 2 is (N-1, 0), anything else (0, 0). */
  function ExitCorner(n: int, k: int): (c: Point)
    requires 1 <= n
    ensures IsCorner(n, c) && InGrid(n, c)
  {
    if k == 0 then Point(0, n - 1)
    else if k == 1 then Point(n - 1, n - 1)
    else if k == 2 then Point(n - 1, 0)
    else Point(0, 0)
  }

  /** Every corner can be chosen by some draw below four. */
  lemma EveryCornerCanBeExit(n: int, c: Point)
    requires 1 <= n && IsCorner(n, c)
    ensures exists k :: 0 <= k < 4 && ExitCorner(n, k) == c
  {
    if c == Point(0, n - 1) {
      assert ExitCorner(n, 0) == c;
    } else if c == Point(n - 1, n - 1) {
      assert ExitCorner(n, 1) == c;
    } else if c == Point(n - 1, 0) {
      assert ExitCorner(n, 2) == c;
    } else {
      assert ExitCorner(n, 3) == c;
    }
  }
}
