/** The logical content of a board, position by position, and the randomized
    depth-first generator of `createBoard` stated on that content: the steps it
    takes, the invariant it keeps and the perfect maze it leaves behind. The
    board a `GameScene` holds in its tiles is related to these values by
    the ghost `GameScene.board`. */
module Maze {
  import opened Geometry
  import opened Walls
  import opened Tiles

  /** The flags of every tile, keyed by the tile's position. */
  type Board = map<Point, Flags>

  // ---------------------------------------------------------------------------
  // The positions of the board

  /** The positions (0, y) .. (n-1, y) of one row. */
  function Row(n: int, y: int): set<Point>
    decreases n
  {
    if n <= 0 then {} else Row(n - 1, y) + {Point(n - 1, y)}
  }

  /** The positions of the rows 0 .. k-1 of a board n positions wide. */
  function Rows(n: int, k: int): set<Point>
    decreases k
  {
    if k <= 0 then {} else Rows(n, k - 1) + Row(n, k - 1)
  }

  lemma {:induction false} RowMembers(n: int, y: int)
    ensures forall p :: p in Row(n, y) <==> 0 <= p.x < n && p.y == y
    decreases n
  {
    if n > 0 {
      RowMembers(n - 1, y);
    }
  }

  lemma {:induction false} RowsMembers(n: int, k: int)
    ensures forall p :: p in Rows(n, k) <==> 0 <= p.x < n && 0 <= p.y < k
    decreases k
  {
    if k > 0 {
      RowsMembers(n, k - 1);
      RowMembers(n, k - 1);
    }
  }

  /** The positions of an N x N board. */
  function Cells(n: int): (c: set<Point>)
    ensures forall p :: p in c <==> InGrid(n, p)
  {
    RowsMembers(n, n);
    Rows(n, n)
  }

  lemma {:induction false} RowCount(n: nat, y: int)
    ensures |Row(n, y)| == n
  {
    if n > 0 {
      RowCount(n - 1, y);
      RowMembers(n - 1, y);
    }
  }

  /** n * k as repeated addition, so that counting rows stays linear. */
  function Times(n: int, k: nat): int
  {
    if k == 0 then 0 else Times(n, k - 1) + n
  }

  lemma {:induction false} TimesIsProduct(n: int, k: nat)
    ensures Times(n, k) == n * k
  {
    if k > 0 {
      TimesIsProduct(n, k - 1);
    }
  }

  /** Row k lies outside rows 0 .. k-1. */
  lemma RowOutsideRows(n: int, k: int)
    ensures Rows(n, k) * Row(n, k) == {}
  {
    RowsMembers(n, k);
    RowMembers(n, k);
    forall p | p in Rows(n, k)
      ensures p !in Row(n, k)
    {
    }
  }

  lemma {:induction false} RowsCount(n: nat, k: nat)
    ensures |Rows(n, k)| == Times(n, k)
  {
    if k > 0 {
      var a, b := Rows(n, k - 1), Row(n, k - 1);
      RowOutsideRows(n, k - 1);
      RowsCount(n, k - 1);
      RowCount(n, k - 1);
      assert |Rows(n, k)| == |a| + |b|;
    }
  }

  /** The board `m` holds exactly the positions of the N x N board. */
  ghost predicate OnBoard(n: int, m: Board)
  {
    forall p :: p in m <==> InGrid(n, p)
  }

  /** An N x N board has N*N positions. */
  lemma CellsCount(n: nat)
    ensures |Cells(n)| == n * n
  {
    RowsCount(n, n);
    TimesIsProduct(n, n);
  }

  // ---------------------------------------------------------------------------
  // Walls of the board

  /** Every side of a tile that faces off the board has its wall. */
  ghost predicate BoundaryWallsIntact(n: int, m: Board)
  {
    forall p, s :: p in m && !InGrid(n, Neighbour(p, s)) ==> Has(m[p].walls, s)
  }

  /** The two flags of each shared wall agree as the generator keeps them: between
      a tile and the tile above it the wall is present on both or on neither; an
      opening on the left side of a tile comes with an opening on the right side
      of the tile to its left. */
  ghost predicate SharedWallsConsistent(m: Board)
  {
    (forall p :: p in m && Neighbour(p, Top) in m ==> m[p].walls.top == m[Neighbour(p, Top)].walls.bottom) &&
    (forall p :: p in m && Neighbour(p, Left) in m && !m[p].walls.left ==> !m[Neighbour(p, Left)].walls.right)
  }

  /** The wall flags say which passages were carved: side `s` of `p` is open
      exactly when a logged passage leads from `p` across `s`, or one leads into
      `p` across `s` and `s` is not `p`'s left side (a passage carved to the
      right leaves the far tile's left wall present). */
  ghost predicate WallsMatchPassages(m: Board, ps: seq<(Point, Point)>)
  {
    forall p, s :: p in m && Neighbour(p, s) in m ==>
      (!Has(m[p].walls, s) <==> (p, Neighbour(p, s)) in ps || (s != Left && (Neighbour(p, s), p) in ps))
  }

  /** The board after the walls between the tiles at `c` and `q` are removed the
      way createBoard removes them. */
  function CarveOnBoard(m: Board, c: Point, q: Point): Board
    requires c in m && q in m
  {
    var (cw, nw) := Carve(c, q, m[c].walls, m[q].walls);
    m[c := m[c].(walls := cw)][q := m[q].(walls := nw)]
  }

  /** Carving between two neighbours keeps the outer walls and the agreement of
      the shared walls. */
  lemma {:induction false} CarveKeepsWalls(n: int, m: Board, c: Point, s: Side)
    requires OnBoard(n, m) && c in m && Neighbour(c, s) in m
    requires BoundaryWallsIntact(n, m) && SharedWallsConsistent(m)
    ensures BoundaryWallsIntact(n, CarveOnBoard(m, c, Neighbour(c, s)))
    ensures SharedWallsConsistent(CarveOnBoard(m, c, Neighbour(c, s)))
  {
    CarveKeepsBoundary(n, m, c, s);
    CarveKeepsVertical(m, c, s);
    CarveKeepsHorizontal(m, c, s);
  }

  lemma {:induction false} CarveKeepsBoundary(n: int, m: Board, c: Point, s: Side)
    requires OnBoard(n, m) && c in m && Neighbour(c, s) in m
    requires BoundaryWallsIntact(n, m)
    ensures BoundaryWallsIntact(n, CarveOnBoard(m, c, Neighbour(c, s)))
  {
    var q := Neighbour(c, s);
    var r := CarveOnBoard(m, c, q);
    CarveTouchesOnlyFacingSides(c, s, m[c].walls, m[q].walls);
    NeighbourOpposite(c, s);
    forall p, t | p in r && !InGrid(n, Neighbour(p, t))
      ensures Has(r[p].walls, t)
    {
      if p == q {
        assert t != Opposite(s);
      } else if p == c {
        assert t != s;
      }
    }
  }

  lemma {:induction false} CarveKeepsVertical(m: Board, c: Point, s: Side)
    requires c in m && Neighbour(c, s) in m
    requires SharedWallsConsistent(m)
    ensures var r := CarveOnBoard(m, c, Neighbour(c, s));
      forall p :: p in r && Neighbour(p, Top) in r ==> r[p].walls.top == r[Neighbour(p, Top)].walls.bottom
  {
    var q := Neighbour(c, s);
    var r := CarveOnBoard(m, c, q);
    forall p | p in r && Neighbour(p, Top) in r
      ensures r[p].walls.top == r[Neighbour(p, Top)].walls.bottom
    {
      var u := Neighbour(p, Top);
      match s
      case Top =>
        if p == c {
          assert u == q;
        }
      case Bottom =>
        if u == c {
          assert p == q;
        }
      case Left =>
      case Right =>
    }
  }

  lemma {:induction false} CarveKeepsHorizontal(m: Board, c: Point, s: Side)
    requires c in m && Neighbour(c, s) in m
    requires SharedWallsConsistent(m)
    ensures var r := CarveOnBoard(m, c, Neighbour(c, s));
      forall p :: p in r && Neighbour(p, Left) in r && !r[p].walls.left ==> !r[Neighbour(p, Left)].walls.right
  {
    var q := Neighbour(c, s);
    var r := CarveOnBoard(m, c, q);
    forall p | p in r && Neighbour(p, Left) in r && !r[p].walls.left
      ensures !r[Neighbour(p, Left)].walls.right
    {
      var u := Neighbour(p, Left);
      match s
      case Top =>
      case Bottom =>
      case Left =>
        if p == c {
          assert u == q;
        }
      case Right =>
    }
  }

  // ---------------------------------------------------------------------------
  // Choosing the next tile (findNextNeighbour)

  /** Every neighbour of `p` on the board has been visited. */
  ghost predicate NeighboursVisited(m: Board, p: Point)
  {
    forall s :: Neighbour(p, s) in m ==> m[Neighbour(p, s)].visited
  }

  /** The neighbour across side `s` of `c`, when it is on the board and unvisited. */
  function Fresh(m: Board, c: Point, s: Side): seq<Point>
  {
    var q := Neighbour(c, s);
    if q in m && !m[q].visited then [q] else []
  }

  /** The positions findNextNeighbour collects, in its order: right, left, top, bottom. */
  function Candidates(m: Board, c: Point): (r: seq<Point>)
    ensures |r| <= 4
    ensures forall i :: 0 <= i < |r| ==> r[i] in m && !m[r[i]].visited && Distance(c, r[i]) == 1
    ensures forall i, j :: 0 <= i < j < |r| ==> r[i] != r[j]
  {
    Fresh(m, c, Right) + Fresh(m, c, Left) + Fresh(m, c, Top) + Fresh(m, c, Bottom)
  }

  /** The candidates are exactly the unvisited positions one step away, and there
      are none exactly when every neighbour has been visited. */
  lemma CandidatesAreFreshNeighbours(m: Board, c: Point)
    ensures forall p :: p in Candidates(m, c) <==> p in m && Distance(c, p) == 1 && !m[p].visited
    ensures Candidates(m, c) == [] <==> NeighboursVisited(m, c)
  {
    forall p | p in m && Distance(c, p) == 1 && !m[p].visited
      ensures p in Candidates(m, c)
    {
      UnitStepIsNeighbour(c, p);
      var s :| Neighbour(c, s) == p;
      assert p in Fresh(m, c, s);
    }
    if !NeighboursVisited(m, c) {
      var s :| Neighbour(c, s) in m && !m[Neighbour(c, s)].visited;
      assert Neighbour(c, s) in Candidates(m, c);
    }
  }

  // ---------------------------------------------------------------------------
  // The generator (createBoard)

  /** The state of createBoard's loop as a value: the board's flags, the current
      position, the positions on the stack, the passages carved so far, and
      whether the map is created. */
  datatype Walk = Walk(board: Board, cur: Point, stack: seq<Point>, passages: seq<(Point, Point)>, done: bool)

  /** The current position and every stacked position are on the walk's board. */
  ghost predicate WalkOnBoard(w: Walk)
  {
    w.cur in w.board && forall i :: 0 <= i < |w.stack| ==> w.stack[i] in w.board
  }

  /** The flags of a tile after `visit()`. */
  function Visited(f: Flags): Flags
  {
    f.(visited := true, current := false)
  }

  /** A forward step: the current tile is visited, the walls towards `next` are
      carved and `next` becomes current. */
  function Advance(m: Board, cur: Point, next: Point): (r: Board)
    requires cur in m && next in m
    ensures r.Keys == m.Keys && r[cur].visited && r[next].current
    ensures forall p :: p in m && p != cur && p != next ==> r[p] == m[p]
  {
    var m1 := CarveOnBoard(m[cur := Visited(m[cur])], cur, next);
    m1[next := m1[next].(current := true)]
  }

  /** A forward step changes the flags at `cur` and `next` only: `cur` is visited
      and loses the wall `Carve` removes, `next` gets the walls `Carve` leaves it
      and becomes current. */
  lemma AdvanceAt(m: Board, cur: Point, next: Point)
    requires cur in m && next in m && cur != next
    ensures var carved := Carve(cur, next, m[cur].walls, m[next].walls);
      Advance(m, cur, next) ==
        m[cur := Visited(m[cur]).(walls := carved.0)][next := m[next].(walls := carved.1, current := true)]
  {
  }

  /** A step back: the current tile is visited and `back`, popped from the stack,
      becomes current. */
  function Retreat(m: Board, cur: Point, back: Point): (r: Board)
    requires cur in m && back in m
    ensures r.Keys == m.Keys && r[cur].visited && r[back].current
    ensures forall p :: p in m ==> r[p].walls == m[p].walls
    ensures forall p :: p in m && p != cur && p != back ==> r[p] == m[p]
  {
    var m1 := m[cur := Visited(m[cur])];
    m1[back := m1[back].(current := true)]
  }

  /** The last step: the current tile is visited and the tile at `exit` is
      flagged as the exit. */
  function Finish(m: Board, cur: Point, exit: Point): (r: Board)
    requires cur in m && exit in m
    ensures r.Keys == m.Keys && r[cur].visited && !r[cur].current && r[exit].end
    ensures forall p :: p in m ==> r[p].walls == m[p].walls
    ensures forall p :: p in m && p != cur && p != exit ==> r[p] == m[p]
  {
    var m1 := m[cur := Visited(m[cur])];
    m1[exit := m1[exit].(end := true)]
  }

  /** A step forward: the walls towards `next` are carved, the current position
      is pushed, `next` becomes current and the passage is logged. */
  function Forward(w: Walk, next: Point): (r: Walk)
    requires w.cur in w.board && next in w.board
    ensures WalkOnBoard(w) ==> WalkOnBoard(r)
    ensures r.board.Keys == w.board.Keys && r.cur == next && r.done == w.done
    ensures |r.passages| == |w.passages| + 1 && r.passages[..|w.passages|] == w.passages
  {
    Walk(Advance(w.board, w.cur, next), next, w.stack + [w.cur], w.passages + [(w.cur, next)], w.done)
  }

  /** When the current position has no unvisited neighbour: with an empty stack
      the walk finishes and flags `exit`; otherwise it steps back to the top of
      the stack, which is popped. */
  function Backward(w: Walk, exit: Point): (r: Walk)
    requires WalkOnBoard(w) && exit in w.board
    ensures WalkOnBoard(r) && r.board.Keys == w.board.Keys && r.passages == w.passages
    ensures r.done <==> w.done || w.stack == []
    ensures r.done || |r.stack| + 1 == |w.stack|
  {
    if w.stack == [] then
      Walk(Finish(w.board, w.cur, exit), w.cur, w.stack, w.passages, true)
    else
      var back := w.stack[|w.stack| - 1];
      Walk(Retreat(w.board, w.cur, back), back, w.stack[..|w.stack| - 1], w.passages, w.done)
  }

  /** One iteration of createBoard's loop: when the current position has
      unvisited neighbours, the draw `pick` chooses one of the candidates and the
      walk steps forward to it; otherwise it steps back or finishes. */
  function GenStep(w: Walk, pick: nat, exit: Point): (r: Walk)
    requires WalkOnBoard(w) && exit in w.board
    ensures WalkOnBoard(r) && r.board.Keys == w.board.Keys
    ensures |r.passages| == |w.passages| + (if NeighboursVisited(w.board, w.cur) then 0 else 1)
    ensures r.passages[..|w.passages|] == w.passages
  {
    var cs := Candidates(w.board, w.cur);
    if cs != [] then
      CandidatesAreFreshNeighbours(w.board, w.cur);
      assert cs[pick % |cs|] in cs;
      Forward(w, cs[pick % |cs|])
    else
      Backward(w, exit)
  }

  /** What holds at the head of createBoard's loop: the generator's invariant
      while the map is being created, and once it is, an empty stack, a perfect
      maze and the exit at `exit`. */
  ghost predicate WalkInvariant(n: int, w: Walk, start: Point, exit: Point)
  {
    if !w.done then GeneratorInvariant(n, w.board, start, w.cur, w.stack, w.passages)
    else w.stack == [] && MazeComplete(n, w.board, start, w.passages) && ExitAt(w.board, exit)
  }

  /** What is left of the walk: each position still to reach costs a step
      forward and a step back, each stacked position a step back, and the last
      step ends it. */
  ghost function Progress(w: Walk): nat
  {
    if w.done then 0 else 2 * |Unreached(w.board, w.cur)| + |w.stack| + 1
  }

  /** Each iteration of createBoard's loop keeps its invariant and brings the
      walk closer to its end: the generator terminates with a perfect maze. */
  lemma GenStepKeepsInvariant(n: int, w: Walk, start: Point, pick: nat, exit: Point)
    requires WalkOnBoard(w) && exit in w.board && !w.done
    requires WalkInvariant(n, w, start, exit)
    ensures WalkInvariant(n, GenStep(w, pick, exit), start, exit)
    ensures Progress(GenStep(w, pick, exit)) < Progress(w)
  {
    var cs := Candidates(w.board, w.cur);
    CandidatesAreFreshNeighbours(w.board, w.cur);
    if cs != [] {
      var next := cs[pick % |cs|];
      assert next in cs;
      ForwardKeepsInvariant(n, w, start, next, exit);
    } else {
      BackwardKeepsInvariant(n, w, start, exit);
    }
  }

  lemma ForwardKeepsInvariant(n: int, w: Walk, start: Point, next: Point, exit: Point)
    requires WalkOnBoard(w) && !w.done && WalkInvariant(n, w, start, exit)
    requires next in w.board && Distance(w.cur, next) == 1 && !w.board[next].visited
    ensures WalkInvariant(n, Forward(w, next), start, exit)
    ensures Progress(Forward(w, next)) < Progress(w)
  {
    AdvanceKeepsInvariant(n, w.board, start, w.cur, w.stack, w.passages, next);
    UnreachedShrinks(w.board, w.cur, next);
  }

  lemma BackwardKeepsInvariant(n: int, w: Walk, start: Point, exit: Point)
    requires WalkOnBoard(w) && exit in w.board && !w.done && WalkInvariant(n, w, start, exit)
    requires NeighboursVisited(w.board, w.cur)
    ensures WalkInvariant(n, Backward(w, exit), start, exit)
    ensures Progress(Backward(w, exit)) < Progress(w)
  {
    if w.stack == [] {
      FinishKeepsInvariant(n, w, start, exit);
    } else {
      RetreatWalkKeepsInvariant(n, w, start, exit);
    }
  }

  lemma RetreatWalkKeepsInvariant(n: int, w: Walk, start: Point, exit: Point)
    requires WalkOnBoard(w) && exit in w.board && !w.done && w.stack != []
    requires GeneratorInvariant(n, w.board, start, w.cur, w.stack, w.passages) && NeighboursVisited(w.board, w.cur)
    ensures WalkInvariant(n, Backward(w, exit), start, exit)
    ensures Progress(Backward(w, exit)) < Progress(w)
  {
    RetreatKeepsInvariant(n, w.board, start, w.cur, w.stack, w.passages);
  }

  lemma FinishKeepsInvariant(n: int, w: Walk, start: Point, exit: Point)
    requires WalkOnBoard(w) && exit in w.board && !w.done && w.stack == []
    requires GeneratorInvariant(n, w.board, start, w.cur, [], w.passages) && NeighboursVisited(w.board, w.cur)
    ensures WalkInvariant(n, Backward(w, exit), start, exit)
  {
    FinishCompletesMaze(n, w.board, start, w.cur, w.passages, exit);
  }

  /** The positions of a sequence in which no position appears twice are as
      many as its entries. */
  lemma {:induction false} DistinctCount(s: seq<Point>)
    requires forall i, j :: 0 <= i < j < |s| ==> s[i] != s[j]
    ensures |set p | p in s| == |s|
  {
    if s != [] {
      var t := s[..|s| - 1];
      DistinctCount(t);
      assert (set p | p in s) == (set p | p in t) + {s[|s| - 1]};
    }
  }

  /** A subset has at most as many elements as the set around it. */
  lemma {:induction false} SubsetCount(a: set<Point>, b: set<Point>)
    requires a <= b
    ensures |a| <= |b|
  {
    if a != {} {
      var x :| x in a;
      SubsetCount(a - {x}, b - {x});
    }
  }

  /** While the maze is being generated the backtracking stack holds at most
      N*N - 1 positions: all its positions differ and none is the current one. */
  lemma StackBounded(n: int, m: Board, cur: Point, stack: seq<Point>)
    requires OnBoard(n, m) && cur in m && StackWellFormed(m, cur, stack)
    ensures |stack| <= n * n - 1
  {
    DistinctCount(stack);
    CellsCount(n);
    var onStack := set p | p in stack;
    SubsetCount(onStack, Cells(n) - {cur});
  }

  /** A forward step reaches one more position. */
  lemma UnreachedShrinks(m: Board, cur: Point, next: Point)
    requires cur in m && next in m && cur != next && !m[next].visited
    ensures |Unreached(Advance(m, cur, next), next)| + 1 == |Unreached(m, cur)|
  {
    AdvanceMarks(m, cur, next);
    assert Unreached(Advance(m, cur, next), next) == Unreached(m, cur) - {next};
  }

  /** Every logged passage joins two neighbouring board positions. */
  ghost predicate PassagesOnBoard(n: int, ps: seq<(Point, Point)>)
  {
    forall k :: 0 <= k < |ps| ==>
      InGrid(n, ps[k].0) && InGrid(n, ps[k].1) && Distance(ps[k].0, ps[k].1) == 1
  }

  /** The positions the passages lead to. */
  ghost function Ends(ps: seq<(Point, Point)>): set<Point>
  {
    set k | 0 <= k < |ps| :: ps[k].1
  }

  /** The passages grow a tree from `start`: each leads from a position already
      reached (the start or the end of an earlier passage) to a position not
      reached before. */
  ghost predicate GrownFrom(start: Point, ps: seq<(Point, Point)>)
  {
    forall k :: 0 <= k < |ps| ==>
      (ps[k].0 == start || exists j :: 0 <= j < k && ps[j].1 == ps[k].0) &&
      ps[k].1 != start && (forall j :: 0 <= j < k ==> ps[j].1 != ps[k].1)
  }

  /** The positions the walk has reached: the visited ones and the current one. */
  ghost function Reached(m: Board, cur: Point): set<Point>
  {
    set p | p in m && (m[p].visited || p == cur)
  }

  /** The positions still to be reached. */
  ghost function Unreached(m: Board, cur: Point): set<Point>
  {
    set p | p in m && !m[p].visited && p != cur
  }

  /** The backtracking stack: visited positions of the board, none twice, and not
      the current one. */
  ghost predicate StackWellFormed(m: Board, cur: Point, stack: seq<Point>)
  {
    cur !in stack &&
    (forall i :: 0 <= i < |stack| ==> stack[i] in m && m[stack[i]].visited) &&
    (forall i, j :: 0 <= i < j < |stack| ==> stack[i] != stack[j])
  }

  /** A visited tile that is neither current nor on the stack has no unvisited
      neighbour left: the walk has finished with it. */
  ghost predicate FrontierClosed(m: Board, cur: Point, stack: seq<Point>)
  {
    forall p :: p in m && m[p].visited && p !in stack && p != cur ==> NeighboursVisited(m, p)
  }

  /** Only `cur` is current, only `start` is the start, and no tile is the exit yet. */
  ghost predicate MarksAt(m: Board, start: Point, cur: Point)
  {
    forall p :: p in m ==> (m[p].current <==> p == cur) && (m[p].start <==> p == start) && !m[p].end
  }

  /** The passages form a tree grown from `start` over exactly the reached positions. */
  ghost predicate PassageTree(n: int, m: Board, start: Point, cur: Point, ps: seq<(Point, Point)>)
  {
    PassagesOnBoard(n, ps) && GrownFrom(start, ps) && Reached(m, cur) == {start} + Ends(ps)
  }

  /** What holds at the head of createBoard's loop. `start` is the starting tile,
      `cur` the current tile, `stack` the positions of `visitedTiles` and `ps` the
      passages carved so far. */
  ghost predicate GeneratorInvariant(n: int, m: Board, start: Point, cur: Point,
                                     stack: seq<Point>, ps: seq<(Point, Point)>)
  {
    OnBoard(n, m) && cur in m &&
    StackWellFormed(m, cur, stack) && FrontierClosed(m, cur, stack) && MarksAt(m, start, cur) &&
    BoundaryWallsIntact(n, m) && SharedWallsConsistent(m) && PassageTree(n, m, start, cur, ps) &&
    WallsMatchPassages(m, ps)
  }

  /** The board createBoard leaves: every tile visited and none current, the
      starting tile still flagged, the walls open exactly where the N*N - 1
      passages were carved, and those passages forming a tree from the start
      that reaches every other position exactly once: a perfect maze. */
  ghost predicate MazeComplete(n: int, m: Board, start: Point, ps: seq<(Point, Point)>)
  {
    OnBoard(n, m) &&
    (forall p :: p in m ==> m[p].visited && !m[p].current && (m[p].start <==> p == start)) &&
    BoundaryWallsIntact(n, m) && SharedWallsConsistent(m) && WallsMatchPassages(m, ps) &&
    PassagesOnBoard(n, ps) && GrownFrom(start, ps) &&
    Ends(ps) == Cells(n) - {start} && |ps| == n * n - 1
  }

  /** The tile at `c` has no wall on the side facing `q`. */
  ghost predicate OpenTowards(m: Board, c: Point, q: Point)
    requires c in m
  {
    exists s :: Neighbour(c, s) == q && !Has(m[c].walls, s)
  }

  /** In a finished maze every passage is open from the tile it leaves, so for
      N >= 2 some wall is gone: a board that still has every wall is no maze. */
  lemma MazeOpensPassages(n: int, m: Board, start: Point, ps: seq<(Point, Point)>)
    requires MazeComplete(n, m, start, ps)
    ensures forall k :: 0 <= k < |ps| ==> ps[k].0 in m && OpenTowards(m, ps[k].0, ps[k].1)
    ensures n >= 2 ==> exists p :: p in m && m[p].walls != AllWalls
  {
    PassagesOpen(n, m, ps);
  }

  lemma PassagesOpen(n: int, m: Board, ps: seq<(Point, Point)>)
    requires OnBoard(n, m) && PassagesOnBoard(n, ps) && WallsMatchPassages(m, ps) && |ps| == n * n - 1
    ensures forall k :: 0 <= k < |ps| ==> ps[k].0 in m && OpenTowards(m, ps[k].0, ps[k].1)
    ensures n >= 2 ==> exists p :: p in m && m[p].walls != AllWalls
  {
    forall k | 0 <= k < |ps|
      ensures ps[k].0 in m && OpenTowards(m, ps[k].0, ps[k].1)
    {
      PassageOpen(m, ps, k);
    }
    if n >= 2 {
      MulLeq(1, n, n);
      PassageOpen(m, ps, 0);
    }
  }

  lemma PassageOpen(m: Board, ps: seq<(Point, Point)>, k: int)
    requires 0 <= k < |ps| && ps[k].0 in m && ps[k].1 in m && Distance(ps[k].0, ps[k].1) == 1
    requires WallsMatchPassages(m, ps)
    ensures OpenTowards(m, ps[k].0, ps[k].1) && m[ps[k].0].walls != AllWalls
  {
    var (c, q) := ps[k];
    UnitStepIsNeighbour(c, q);
    var s :| Neighbour(c, s) == q;
    assert (c, q) in ps;
    assert !Has(m[c].walls, s);
  }

  /** Exactly one tile is the exit, the one at `c`. */
  ghost predicate ExitAt(m: Board, c: Point)
  {
    forall p :: p in m ==> (m[p].end <==> p == c)
  }

  /** The board newBoard hands to createBoard: every tile reset, the one at
      `start` current and flagged as the start. */
  function FreshBoard(n: int, start: Point): (r: Board)
    ensures OnBoard(n, r)
    ensures forall p :: p in r ==>
      r[p].walls == AllWalls && !r[p].visited && !r[p].end &&
      (r[p].current <==> p == start) && (r[p].start <==> p == start)
  {
    map p | p in Cells(n) :: if p == start then InitialFlags.(current := true, start := true) else InitialFlags
  }

  /** The generator's invariant holds on a fresh board. */
  lemma FreshBoardStartsGenerator(n: int, start: Point)
    requires InGrid(n, start)
    ensures GeneratorInvariant(n, FreshBoard(n, start), start, start, [], [])
  {
    var m := FreshBoard(n, start);
    assert Reached(m, start) == {start};
  }

  /** Changing flags other than the walls keeps the wall predicates. */
  lemma SameWallsSameInvariants(n: int, m: Board, m': Board)
    requires m.Keys == m'.Keys && forall p :: p in m ==> m'[p].walls == m[p].walls
    ensures BoundaryWallsIntact(n, m) ==> BoundaryWallsIntact(n, m')
    ensures SharedWallsConsistent(m) ==> SharedWallsConsistent(m')
  {
  }

  /** Changing flags other than the walls keeps the walls' agreement with the passages. */
  lemma SameWallsSamePassages(m: Board, m': Board, ps: seq<(Point, Point)>)
    requires m.Keys == m'.Keys && forall p :: p in m ==> m'[p].walls == m[p].walls
    requires WallsMatchPassages(m, ps)
    ensures WallsMatchPassages(m', ps)
  {
  }

  /** Passages grown from `start` end at distinct positions, so there are as many
      ends as passages. */
  lemma {:induction false} EndsCount(start: Point, ps: seq<(Point, Point)>)
    requires GrownFrom(start, ps)
    ensures |Ends(ps)| == |ps|
  {
    if ps != [] {
      var init := ps[..|ps| - 1];
      GrownFromPrefix(start, ps);
      EndsCount(start, init);
      assert Ends(ps) == Ends(init) + {ps[|ps| - 1].1};
      assert ps[|ps| - 1].1 !in Ends(init);
    }
  }

  /** Dropping the last passage leaves a tree grown from `start`. */
  lemma GrownFromPrefix(start: Point, ps: seq<(Point, Point)>)
    requires GrownFrom(start, ps) && ps != []
    ensures GrownFrom(start, ps[..|ps| - 1])
  {
    var init := ps[..|ps| - 1];
    forall k | 0 <= k < |init|
      ensures (init[k].0 == start || exists j :: 0 <= j < k && init[j].1 == init[k].0)
    {
      if init[k].0 != start {
        var j :| 0 <= j < k && ps[j].1 == ps[k].0;
        assert init[j].1 == init[k].0;
      }
    }
  }

  /** Appending a passage from a reached position to an unreached one keeps the
      passages a tree grown from `start`. */
  lemma GrowPassages(start: Point, ps: seq<(Point, Point)>, c: Point, q: Point)
    requires GrownFrom(start, ps)
    requires c in {start} + Ends(ps) && q !in {start} + Ends(ps)
    ensures GrownFrom(start, ps + [(c, q)])
    ensures Ends(ps + [(c, q)]) == Ends(ps) + {q}
  {
    var ps' := ps + [(c, q)];
    forall k | 0 <= k < |ps'|
      ensures (ps'[k].0 == start || exists j :: 0 <= j < k && ps'[j].1 == ps'[k].0)
      ensures ps'[k].1 != start && (forall j :: 0 <= j < k ==> ps'[j].1 != ps'[k].1)
    {
      if k < |ps| {
        if ps[k].0 != start {
          var j :| 0 <= j < k && ps[j].1 == ps[k].0;
          assert ps'[j].1 == ps'[k].0;
        }
      } else if c != start {
        var j :| 0 <= j < |ps| && ps[j].1 == c;
        assert ps'[j].1 == ps'[k].0;
      }
    }
    forall x
      ensures x in Ends(ps') <==> x in Ends(ps) + {q}
    {
      if x in Ends(ps') {
        var k :| 0 <= k < |ps'| && ps'[k].1 == x;
        if k < |ps| {
          assert ps[k].1 == x;
        }
      }
      if x in Ends(ps) {
        var k :| 0 <= k < |ps| && ps[k].1 == x;
        assert ps'[k].1 == x;
      }
      if x == q {
        assert ps'[|ps|].1 == q;
      }
    }
  }

  /** A forward step of createBoard towards an unvisited neighbour keeps the
      generator's invariant, carves one passage, and reaches one more position. */
  lemma AdvanceKeepsInvariant(n: int, m: Board, start: Point, cur: Point,
                              stack: seq<Point>, ps: seq<(Point, Point)>, next: Point)
    requires cur in m && next in m && Distance(cur, next) == 1 && !m[next].visited
    ensures GeneratorInvariant(n, m, start, cur, stack, ps) ==>
      GeneratorInvariant(n, Advance(m, cur, next), start, next, stack + [cur], ps + [(cur, next)]) &&
      Unreached(Advance(m, cur, next), next) < Unreached(m, cur)
  {
    if GeneratorInvariant(n, m, start, cur, stack, ps) {
      AdvanceMarks(m, cur, next);
      AdvanceKeepsWalls(n, m, cur, next);
      AdvanceKeepsWalk(m, start, cur, stack, next);
      AdvanceGrowsTree(n, m, start, cur, ps, next);
      AdvanceKeepsPassageWalls(m, start, cur, ps, next);
    }
  }

  /** Every logged passage leaves a position the walk has reached. */
  lemma PassagesLeaveReached(m: Board, start: Point, cur: Point, ps: seq<(Point, Point)>)
    requires GrownFrom(start, ps) && Reached(m, cur) == {start} + Ends(ps)
    ensures forall k :: 0 <= k < |ps| ==> ps[k].0 in Reached(m, cur)
  {
    forall k | 0 <= k < |ps|
      ensures ps[k].0 in {start} + Ends(ps)
    {
      if ps[k].0 != start {
        var j :| 0 <= j < k && ps[j].1 == ps[k].0;
      }
    }
  }

  /** A forward step carves the walls of exactly the passage it logs: the current
      tile opens towards `next`, and `next` opens back unless the step goes right. */
  lemma AdvanceKeepsPassageWalls(m: Board, start: Point, cur: Point, ps: seq<(Point, Point)>, next: Point)
    requires cur in m && next in m && Distance(cur, next) == 1 && !m[next].visited
    requires GrownFrom(start, ps) && Reached(m, cur) == {start} + Ends(ps)
    requires WallsMatchPassages(m, ps)
    ensures WallsMatchPassages(Advance(m, cur, next), ps + [(cur, next)])
  {
    var m3 := Advance(m, cur, next);
    UnitStepIsNeighbour(cur, next);
    var s0 :| Neighbour(cur, s0) == next;
    AdvanceMarks(m, cur, next);
    PassagesLeaveReached(m, start, cur, ps);
    assert next !in Reached(m, cur);
    forall p, s | p in m3 && Neighbour(p, s) in m3
      ensures !Has(m3[p].walls, s) <==>
        (p, Neighbour(p, s)) in ps + [(cur, next)] || (s != Left && (Neighbour(p, s), p) in ps + [(cur, next)])
    {
      AdvanceWallAt(m, cur, s0, ps, p, s);
    }
  }

  /** One side of one tile after a forward step across side `s0` of `cur`. */
  lemma AdvanceWallAt(m: Board, cur: Point, s0: Side, ps: seq<(Point, Point)>, p: Point, s: Side)
    requires cur in m && Neighbour(cur, s0) in m && p in m && Neighbour(p, s) in m
    requires forall k :: 0 <= k < |ps| ==> ps[k].0 != Neighbour(cur, s0)
    requires !Has(m[p].walls, s) <==> (p, Neighbour(p, s)) in ps || (s != Left && (Neighbour(p, s), p) in ps)
    ensures var next := Neighbour(cur, s0); var ps' := ps + [(cur, next)];
      !Has(Advance(m, cur, next)[p].walls, s) <==>
        (p, Neighbour(p, s)) in ps' || (s != Left && (Neighbour(p, s), p) in ps')
  {
    var next, q := Neighbour(cur, s0), Neighbour(p, s);
    NeighbourOpposite(cur, s0);
    CarveTouchesOnlyFacingSides(cur, s0, m[cur].walls, m[next].walls);
    AdvanceAt(m, cur, next);
    if p == cur && s == s0 {
    } else if p == next && q == cur {
      NeighbourSideUnique(next, s, Opposite(s0));
      if s0 == Right {
        CarveRightLeavesLeftWall(cur, m[cur].walls, m[next].walls);
      } else {
        CarveSymmetricExceptRight(cur, s0, m[cur].walls, m[next].walls);
      }
    } else if p == cur && q == next {
      NeighbourSideUnique(cur, s, s0);
    }
  }

  lemma AdvanceKeepsWalls(n: int, m: Board, cur: Point, next: Point)
    requires OnBoard(n, m) && cur in m && next in m && Distance(cur, next) == 1
    requires BoundaryWallsIntact(n, m) && SharedWallsConsistent(m)
    ensures BoundaryWallsIntact(n, Advance(m, cur, next)) && SharedWallsConsistent(Advance(m, cur, next))
  {
    var m1 := m[cur := Visited(m[cur])];
    var m2 := CarveOnBoard(m1, cur, next);
    UnitStepIsNeighbour(cur, next);
    var s :| Neighbour(cur, s) == next;
    SameWallsSameInvariants(n, m, m1);
    CarveKeepsWalls(n, m1, cur, s);
    SameWallsSameInvariants(n, m2, Advance(m, cur, next));
  }

  lemma AdvanceKeepsWalk(m: Board, start: Point, cur: Point, stack: seq<Point>, next: Point)
    requires cur in m && next in m && cur != next && !m[next].visited
    requires StackWellFormed(m, cur, stack) && FrontierClosed(m, cur, stack) && MarksAt(m, start, cur)
    ensures var m3 := Advance(m, cur, next);
      StackWellFormed(m3, next, stack + [cur]) && FrontierClosed(m3, next, stack + [cur]) && MarksAt(m3, start, next)
  {
    var m3 := Advance(m, cur, next);
    AdvanceMarks(m, cur, next);
    forall p | p in m3 && m3[p].visited && p !in stack + [cur] && p != next
      ensures NeighboursVisited(m3, p)
    {
      assert NeighboursVisited(m, p);
    }
  }

  /** A forward step only visits the current tile, moves the current mark to
      `next` and changes walls. */
  lemma AdvanceMarks(m: Board, cur: Point, next: Point)
    requires cur in m && next in m && cur != next
    ensures Advance(m, cur, next).Keys == m.Keys
    ensures forall p :: p in m ==>
      var f := Advance(m, cur, next)[p];
      f.visited == (m[p].visited || p == cur) &&
      f.current == (p == next || (p != cur && m[p].current)) &&
      f.start == m[p].start && f.end == m[p].end
  {
  }

  lemma AppendPassageOnBoard(n: int, ps: seq<(Point, Point)>, c: Point, q: Point)
    requires PassagesOnBoard(n, ps) && InGrid(n, c) && InGrid(n, q) && Distance(c, q) == 1
    ensures PassagesOnBoard(n, ps + [(c, q)])
  {
    var ps' := ps + [(c, q)];
    forall k | 0 <= k < |ps'|
      ensures InGrid(n, ps'[k].0) && InGrid(n, ps'[k].1) && Distance(ps'[k].0, ps'[k].1) == 1
    {
      if k < |ps| {
        assert ps'[k] == ps[k];
      }
    }
  }

  lemma AdvanceGrowsTree(n: int, m: Board, start: Point, cur: Point, ps: seq<(Point, Point)>, next: Point)
    requires OnBoard(n, m) && cur in m && PassageTree(n, m, start, cur, ps)
    requires next in m && Distance(cur, next) == 1 && !m[next].visited
    ensures PassageTree(n, Advance(m, cur, next), start, next, ps + [(cur, next)])
    ensures Unreached(Advance(m, cur, next), next) < Unreached(m, cur)
  {
    var m3 := Advance(m, cur, next);
    AdvanceMarks(m, cur, next);
    assert Reached(m3, next) == Reached(m, cur) + {next};
    GrowPassages(start, ps, cur, next);
    AppendPassageOnBoard(n, ps, cur, next);
    assert Unreached(m3, next) == Unreached(m, cur) - {next};
  }

  /** A step back keeps the generator's invariant and reaches nothing new. */
  lemma RetreatKeepsInvariant(n: int, m: Board, start: Point, cur: Point,
                              stack: seq<Point>, ps: seq<(Point, Point)>)
    requires cur in m && stack != [] && stack[|stack| - 1] in m
    ensures var back := stack[|stack| - 1];
      GeneratorInvariant(n, m, start, cur, stack, ps) && NeighboursVisited(m, cur) ==>
        GeneratorInvariant(n, Retreat(m, cur, back), start, back, stack[..|stack| - 1], ps) &&
        Unreached(Retreat(m, cur, back), back) == Unreached(m, cur)
  {
    if GeneratorInvariant(n, m, start, cur, stack, ps) && NeighboursVisited(m, cur) {
      var back := stack[|stack| - 1];
      var m1 := Retreat(m, cur, back);
      RetreatMarks(m, cur, back);
      SameWallsSameInvariants(n, m, m1);
      SameWallsSamePassages(m, m1, ps);
      RetreatKeepsWalk(m, start, cur, stack);
      RetreatKeepsReached(m, cur, back);
    }
  }

  lemma RetreatKeepsReached(m: Board, cur: Point, back: Point)
    requires cur in m && back in m && cur != back && m[back].visited
    ensures Reached(Retreat(m, cur, back), back) == Reached(m, cur)
    ensures Unreached(Retreat(m, cur, back), back) == Unreached(m, cur)
  {
    RetreatMarks(m, cur, back);
    assert Reached(Retreat(m, cur, back), back) == Reached(m, cur);
  }

  /** A step back only visits the current tile and moves the current mark to `back`. */
  lemma RetreatMarks(m: Board, cur: Point, back: Point)
    requires cur in m && back in m && cur != back
    ensures Retreat(m, cur, back).Keys == m.Keys
    ensures forall p :: p in m ==>
      var f := Retreat(m, cur, back)[p];
      f.visited == (m[p].visited || p == cur) &&
      f.current == (p == back || (p != cur && m[p].current)) &&
      f.start == m[p].start && f.end == m[p].end && f.walls == m[p].walls
  {
  }

  lemma RetreatKeepsWalk(m: Board, start: Point, cur: Point, stack: seq<Point>)
    requires cur in m && stack != []
    requires StackWellFormed(m, cur, stack) && FrontierClosed(m, cur, stack) && MarksAt(m, start, cur)
    requires NeighboursVisited(m, cur)
    ensures var back, front := stack[|stack| - 1], stack[..|stack| - 1];
      var m1 := Retreat(m, cur, back);
      StackWellFormed(m1, back, front) && FrontierClosed(m1, back, front) && MarksAt(m1, start, back)
  {
    var back, front := stack[|stack| - 1], stack[..|stack| - 1];
    var m1 := Retreat(m, cur, back);
    RetreatMarks(m, cur, back);
    assert back !in front;
    forall p | p in m1 && m1[p].visited && p !in front && p != back
      ensures NeighboursVisited(m1, p)
    {
      if p != cur {
        assert p !in stack;
        assert NeighboursVisited(m, p);
      }
    }
  }

  /** When every visited tile has no unvisited neighbour, every tile is visited:
      the board is connected. */
  lemma ClosedWalkVisitsAll(n: int, m: Board, start: Point)
    requires OnBoard(n, m) && start in m && m[start].visited
    requires forall p :: p in m && m[p].visited ==> NeighboursVisited(m, p)
    ensures forall p :: p in m ==> m[p].visited
  {
    var v := set p | p in m && m[p].visited;
    forall p, s | p in v && InGrid(n, Neighbour(p, s))
      ensures Neighbour(p, s) in v
    {
      assert NeighboursVisited(m, p);
    }
    forall q | q in m
      ensures m[q].visited
    {
      ClosedSetCoversGrid(n, v, start, q);
    }
  }

  /** The last step of createBoard: with the stack empty and no unvisited
      neighbour left, every tile has been visited, the passages are N*N - 1 and
      form a tree from the start over the whole board, and the exit is flagged. */
  lemma FinishCompletesMaze(n: int, m: Board, start: Point, cur: Point,
                            ps: seq<(Point, Point)>, exit: Point)
    requires cur in m && exit in m
    ensures GeneratorInvariant(n, m, start, cur, [], ps) && NeighboursVisited(m, cur) ==>
      MazeComplete(n, Finish(m, cur, exit), start, ps) && ExitAt(Finish(m, cur, exit), exit)
  {
    if GeneratorInvariant(n, m, start, cur, [], ps) && NeighboursVisited(m, cur) {
      var m2 := Finish(m, cur, exit);
      FinishMarks(m, cur, exit);
      FinishVisitsAll(n, m, start, cur, exit);
      SameWallsSameInvariants(n, m, m2);
      SameWallsSamePassages(m, m2, ps);
      FinishCountsPassages(n, m, start, cur, ps);
    }
  }

  /** The last step only visits the current tile, clears the current mark and
      flags the exit. */
  lemma FinishMarks(m: Board, cur: Point, exit: Point)
    requires cur in m && exit in m
    ensures Finish(m, cur, exit).Keys == m.Keys
    ensures forall p :: p in m ==>
      var f := Finish(m, cur, exit)[p];
      f.visited == (m[p].visited || p == cur) &&
      f.current == (p != cur && m[p].current) &&
      f.start == m[p].start && f.end == (m[p].end || p == exit) && f.walls == m[p].walls
  {
  }

  lemma FinishVisitsAll(n: int, m: Board, start: Point, cur: Point, exit: Point)
    requires OnBoard(n, m) && cur in m && exit in m && start in Reached(m, cur)
    requires FrontierClosed(m, cur, []) && NeighboursVisited(m, cur)
    ensures forall p :: p in m ==> Finish(m, cur, exit)[p].visited
  {
    var m2 := Finish(m, cur, exit);
    FinishMarks(m, cur, exit);
    forall p | p in m2 && m2[p].visited
      ensures NeighboursVisited(m2, p)
    {
      assert NeighboursVisited(m, p);
    }
    ClosedWalkVisitsAll(n, m2, start);
  }

  lemma FinishCountsPassages(n: int, m: Board, start: Point, cur: Point, ps: seq<(Point, Point)>)
    requires OnBoard(n, m) && cur in m && PassageTree(n, m, start, cur, ps)
    requires forall p :: p in m ==> m[p].visited || p == cur
    ensures Ends(ps) == Cells(n) - {start} && |ps| == n * n - 1
  {
    assert Reached(m, cur) == Cells(n);
    assert Ends(ps) == Cells(n) - {start};
    EndsCount(start, ps);
    CellsCount(n);
  }
}
