/** The game logic of `GameScene`: the board of tiles built by `didMove`, lookup by
    name, the randomized depth-first maze generator (`newBoard`, `createBoard`,
    `findNextNeighbour`, `setExitTile`), and the move check used while the player
    drags across the maze. Every call to `arc4random_uniform(k)` is replaced by a
    draw `d` supplied by the caller, reduced to `d % k`. */
module Scene {
  import opened Geometry
  import opened Walls
  import opened Names
  import opened Tiles
  import opened Maze

  // ---------------------------------------------------------------------------
  // The tiles findNextNeighbour collects

  /** The positions of a sequence of tiles. */
  ghost function Positions(ts: seq<Tile>): (ps: seq<Point>)
    ensures |ps| == |ts|
    ensures forall i :: 0 <= i < |ts| ==> ps[i] == ts[i].positionOnBoard
  {
    if ts == [] then [] else [ts[0].positionOnBoard] + Positions(ts[1..])
  }

  /** The one-element sequence holding `t`, or nothing when `t` is nil: what
      findNextNeighbour appends to its array for one side. */
  function Present(t: Tile?): seq<Tile>
  {
    if t == null then [] else [t]
  }

  /** `t` is what findNextNeighbour holds for side `s` of `c` on board `m`: nil when
      that side is off the board or visited, otherwise the tile there. */
  ghost predicate Across(m: Board, c: Point, s: Side, t: Tile?)
  {
    var q := Neighbour(c, s);
    if t == null then q !in m || m[q].visited else q in m && !m[q].visited && t.positionOnBoard == q
  }

  /** The positions of two sequences of tiles, one after the other. */
  lemma {:induction false} PositionsAppend(a: seq<Tile>, b: seq<Tile>)
    ensures Positions(a + b) == Positions(a) + Positions(b)
  {
    if a == [] {
      assert a + b == b;
    } else {
      assert (a + b)[1..] == a[1..] + b;
      PositionsAppend(a[1..], b);
    }
  }

  /** The positions of a prefix of a sequence of tiles are a prefix of its positions. */
  lemma PositionsPrefix(ts: seq<Tile>, k: nat)
    requires k <= |ts|
    ensures Positions(ts[..k]) == Positions(ts)[..k]
  {
  }

  /** What findNextNeighbour holds for one side is at the position `Fresh` gives. */
  lemma SidePosition(m: Board, c: Point, s: Side, t: Tile?)
    requires Across(m, c, s, t)
    ensures Positions(Present(t)) == Fresh(m, c, s)
  {
  }

  /** The side tiles, in the order right, left, top, bottom, are at the candidate positions. */
  lemma CollectedAreCandidates(m: Board, c: Point, right: Tile?, left: Tile?, top: Tile?, bottom: Tile?)
    requires Across(m, c, Right, right) && Across(m, c, Left, left)
    requires Across(m, c, Top, top) && Across(m, c, Bottom, bottom)
    ensures Positions(Present(right) + Present(left) + Present(top) + Present(bottom)) == Candidates(m, c)
  {
    SidePosition(m, c, Right, right);
    SidePosition(m, c, Left, left);
    SidePosition(m, c, Top, top);
    SidePosition(m, c, Bottom, bottom);
    PositionsAppend(Present(right), Present(left));
    PositionsAppend(Present(right) + Present(left), Present(top));
    PositionsAppend(Present(right) + Present(left) + Present(top), Present(bottom));
  }

  class GameScene {
    /** N: the board has N x N tiles. */
    const amountOfTiles: int

    /** All tiles; the tile at (x, y) is at index x + y*N. */
    var tileContainer: seq<Tile>
    /** Index of the tile the current board started from. */
    var startingTile: int
    /** The generator's backtracking stack. */
    var visitedTiles: seq<Tile>
    var currentTile: Tile?
    var isMapCreated: bool
    var isGameOver: bool
    /** The last tile the player reached. */
    var previousTile: Tile?

    /** The passages carved since the last new board, as (current, next) positions. */
    ghost var passages: seq<(Point, Point)>
    /** The flags of every tile, keyed by position, updated with the tiles. */
    ghost var board: Board

    constructor (n: int)
      requires 1 <= n
      ensures amountOfTiles == n && tileContainer == [] && visitedTiles == []
      ensures currentTile == null && previousTile == null && passages == [] && board == map[]
      ensures !isMapCreated && !isGameOver && startingTile == 0
    {
      amountOfTiles := n;
      tileContainer := [];
      startingTile := 0;
      visitedTiles := [];
      currentTile := null;
      isMapCreated := false;
      isGameOver := false;
      previousTile := null;
      passages := [];
      board := map[];
    }

    // -------------------------------------------------------------------------
    // The board

    /** Tile `t` belongs at index `i`: its position is on the board and `i` is x + y*N. */
    ghost predicate Placed(i: int, t: Tile)
    {
      InGrid(amountOfTiles, t.positionOnBoard) && Index(amountOfTiles, t.positionOnBoard) == i
    }

    /** The board `didMove` builds: N*N tiles, each at its own index. */
    ghost predicate BoardBuilt()
      reads this`tileContainer
    {
      1 <= amountOfTiles && |tileContainer| == amountOfTiles * amountOfTiles &&
      forall i :: 0 <= i < |tileContainer| ==> Placed(i, tileContainer[i])
    }

    /** Every tile of a built board is on the board, and no two tiles share a position. */
    lemma TilesOnBoard()
      requires BoardBuilt()
      ensures forall t :: t in tileContainer ==> InGrid(amountOfTiles, t.positionOnBoard)
      ensures forall t, u :: t in tileContainer && u in tileContainer && t.positionOnBoard == u.positionOnBoard ==> t == u
    {
      forall t | t in tileContainer
        ensures InGrid(amountOfTiles, t.positionOnBoard)
      {
        var i :| 0 <= i < |tileContainer| && tileContainer[i] == t;
        assert Placed(i, t);
      }
      forall t, u | t in tileContainer && u in tileContainer && t.positionOnBoard == u.positionOnBoard
        ensures t == u
      {
        var i :| 0 <= i < |tileContainer| && tileContainer[i] == t;
        var j :| 0 <= j < |tileContainer| && tileContainer[j] == u;
        assert Placed(i, t) && Placed(j, u);
      }
    }

    /** The tile at a board position. */
    function TileAt(p: Point): (t: Tile)
      reads this`tileContainer
      requires BoardBuilt() && InGrid(amountOfTiles, p)
      ensures t in tileContainer && t.positionOnBoard == p
      ensures t == tileContainer[Index(amountOfTiles, p)]
    {
      IndexInRange(amountOfTiles, p);
      var t := tileContainer[Index(amountOfTiles, p)];
      assert Placed(Index(amountOfTiles, p), t);
      IndexInjective(amountOfTiles, t.positionOnBoard, p);
      t
    }

    /** A tile of the board is the tile at its own position. */
    lemma TileIsAtItsPosition(t: Tile)
      requires BoardBuilt() && t in tileContainer
      ensures InGrid(amountOfTiles, t.positionOnBoard) && t == TileAt(t.positionOnBoard)
    {
      var i :| 0 <= i < |tileContainer| && tileContainer[i] == t;
      assert Placed(i, t);
      IndexInjective(amountOfTiles, t.positionOnBoard, TileAt(t.positionOnBoard).positionOnBoard);
    }

    /** The only tile named after a board position is the tile at that position. */
    lemma NameIdentifiesTile(t: Tile, p: Point)
      requires BoardBuilt() && t in tileContainer && InGrid(amountOfTiles, p) && t.name == TileName(p)
      ensures t == TileAt(p)
    {
      TilesOnBoard();
      TileNameInjective(t.positionOnBoard, p);
    }

    /** The ghost board holds the flags of the board's tiles: an entry for every
        position of the board, and there the flags of the tile at that position. */
    ghost predicate Synced()
      reads this`tileContainer, this`board, tileContainer
    {
      BoardBuilt() && OnBoard(amountOfTiles, board) &&
      forall p {:trigger TileAt(p)} :: p in board ==> board[p] == TileAt(p).State()
    }

    /** The position of the tile the board started from. */
    ghost function StartPosition(): Point
      reads this`startingTile, this`tileContainer
      requires 0 <= startingTile < |tileContainer|
    {
      tileContainer[startingTile].positionOnBoard
    }

    /** The board is built, and the current tile and the stacked tiles are tiles
        of it, at positions on the board. */
    ghost predicate Linked()
      reads this`tileContainer, this`currentTile, this`visitedTiles
    {
      BoardBuilt() && currentTile != null && currentTile in tileContainer &&
      InGrid(amountOfTiles, currentTile.positionOnBoard) &&
      forall t :: t in visitedTiles ==> t in tileContainer && InGrid(amountOfTiles, t.positionOnBoard)
    }

    /** No tile of a built board appears at two indices. */
    lemma TilesDistinct()
      requires BoardBuilt()
      ensures forall i, j :: 0 <= i < j < |tileContainer| ==> tileContainer[i] != tileContainer[j]
    {
      forall i, j | 0 <= i < j < |tileContainer|
        ensures tileContainer[i] != tileContainer[j]
      {
        assert Placed(i, tileContainer[i]) && Placed(j, tileContainer[j]);
      }
    }

    /** The state of createBoard's loop as a value: the flags of the board, the
        positions of the current and the stacked tiles, the passages carved so far
        and whether the map is created. */
    ghost function Abstract(): (w: Walk)
      reads this`tileContainer, this`currentTile, this`visitedTiles, this`board, this`passages, this`isMapCreated
      requires Linked() && OnBoard(amountOfTiles, board)
      ensures WalkOnBoard(w)
    {
      Walk(board, currentTile.positionOnBoard, Positions(visitedTiles), passages, isMapCreated)
    }

    /** getTile(at:): a linear scan for the tile with the given name. */
    method GetTile(location: string) returns (tile: Tile?)
      requires BoardBuilt()
      ensures tile != null ==> tile in tileContainer && tile.name == location
      ensures tile == null <==> forall t :: t in tileContainer ==> t.name != location
      ensures forall p {:trigger TileName(p)} :: InGrid(amountOfTiles, p) && location == TileName(p) ==> tile == TileAt(p)
    {
      var i := 0;
      while i < |tileContainer|
        invariant 0 <= i <= |tileContainer|
        invariant forall j :: 0 <= j < i ==> tileContainer[j].name != location
      {
        if tileContainer[i].name == location {
          tile := tileContainer[i];
          forall p | InGrid(amountOfTiles, p) && location == TileName(p)
            ensures tile == TileAt(p)
          {
            NameIdentifiesTile(tile, p);
          }
          return;
        }
        i := i + 1;
      }
      forall p | InGrid(amountOfTiles, p) && location == TileName(p)
        ensures false
      {
        var t := TileAt(p);
      }
      tile := null;
    }

    // -------------------------------------------------------------------------
    // Choosing the next tile

    /** Every tile in `ts` is a tile of the board that has not been visited. */
    ghost predicate Unvisited(ts: seq<Tile>)
      reads this`tileContainer, ts
    {
      forall u :: u in ts ==> u in tileContainer && !u.hasBeenVisited
    }

    /** One of the four blocks of findNextNeighbour, for the side `s` of `c`, whose
        tile would be at (x, y): when `onBoard`, look the tile up by its name, drop
        it when it has been visited, and append it when it is still there. */
    method CollectSide(tempArray: seq<Tile>, onBoard: bool, x: int, y: int, ghost c: Point, ghost s: Side)
      returns (t: Tile?, collected: seq<Tile>)
      requires Synced() && InGrid(amountOfTiles, c) && Neighbour(c, s) == Point(x, y)
      requires onBoard <==> InGrid(amountOfTiles, Point(x, y))
      requires Unvisited(tempArray)
      ensures Synced()
      ensures Across(board, c, s, t) && collected == tempArray + Present(t)
      ensures Unvisited(collected)
    {
      t := null;
      collected := tempArray;
      if onBoard {
        var name := "Tile_" + IntToString(x) + "_" + IntToString(y);
        assert name == TileName(Point(x, y));
        t := GetTile(name);
        if t.hasBeenVisited {
          t := null;
        }
        if t != null {
          collected := collected + [t];
        }
      }
    }

    /** findNextNeighbour: collects the unvisited tiles to the right, left, top and
        bottom of the current tile and picks one of them with the draw `pick`. */
    method FindNextNeighbour(pick: nat) returns (next: Tile?)
      requires Synced() && currentTile != null && currentTile in tileContainer
      ensures Synced()
      ensures next == null <==> NeighboursVisited(board, currentTile.positionOnBoard)
      ensures next != null ==>
        next in tileContainer && !next.hasBeenVisited && Distance(currentTile.positionOnBoard, next.positionOnBoard) == 1
      ensures var cs := Candidates(board, currentTile.positionOnBoard);
        next != null ==> |cs| > 0 && next.positionOnBoard == cs[pick % |cs|]
    {
      var location := currentTile.positionOnBoard;
      TileIsAtItsPosition(currentTile);
      var topTile: Tile?, bottomTile: Tile?, leftTile: Tile?, rightTile: Tile?;
      var tempArray: seq<Tile> := [];

      rightTile, tempArray :=
        CollectSide(tempArray, location.x < amountOfTiles - 1, location.x + 1, location.y, location, Right);
      assert tempArray == Present(rightTile);
      leftTile, tempArray := CollectSide(tempArray, location.x > 0, location.x - 1, location.y, location, Left);
      topTile, tempArray :=
        CollectSide(tempArray, location.y < amountOfTiles - 1, location.x, location.y + 1, location, Top);
      bottomTile, tempArray := CollectSide(tempArray, location.y > 0, location.x, location.y - 1, location, Bottom);

      CollectedAreCandidates(board, location, rightTile, leftTile, topTile, bottomTile);
      CandidatesAreFreshNeighbours(board, location);
      if tempArray == [] {
        return null;
      }
      var randomIndex := pick % |tempArray|;
      next := tempArray[randomIndex];
      assert next in tempArray;
    }

    // -------------------------------------------------------------------------
    // The generator

    /** The wall update of createBoard's forward branch: the sign of the
        coordinate differences picks one of four branches, each of which sets one
        wall flag of each tile. */
    method RemoveWallsBetween(cur: Tile, nextTile: Tile)
      requires cur != nextTile
      modifies cur`hasTopWall, cur`hasRightWall, cur`hasBottomWall, cur`hasLeftWall
      modifies nextTile`hasTopWall, nextTile`hasRightWall, nextTile`hasBottomWall, nextTile`hasLeftWall
      ensures var carved := Carve(cur.positionOnBoard, nextTile.positionOnBoard, old(cur.WallFlags()), old(nextTile.WallFlags()));
        cur.WallFlags() == carved.0 && nextTile.WallFlags() == carved.1
    {
      var x := cur.positionOnBoard.x - nextTile.positionOnBoard.x;
      var y := cur.positionOnBoard.y - nextTile.positionOnBoard.y;
      if x > 0 {
        cur.hasLeftWall := false;
        nextTile.hasRightWall := false;
      } else if x < 0 {
        cur.hasRightWall := false;
        nextTile.hasLeftWall := true;
      } else if y < 0 {
        cur.hasTopWall := false;
        nextTile.hasBottomWall := false;
      } else {
        cur.hasBottomWall := false;
        nextTile.hasTopWall := false;
      }
    }

    /** The forward branch of createBoard: the current tile is visited and pushed
        on the stack, the walls between it and `nextTile` are removed, and
        `nextTile` becomes the current tile. The carved pair is logged in `passages`. */
    method StepForward(nextTile: Tile)
      requires Linked() && Synced() && nextTile in tileContainer && currentTile != nextTile
      modifies this`currentTile, this`visitedTiles, this`passages, this`board, currentTile, nextTile
      ensures Linked() && Synced()
      ensures visitedTiles == old(visitedTiles) + [old(currentTile)] && currentTile == nextTile
      ensures passages == old(passages) + [(old(currentTile).positionOnBoard, nextTile.positionOnBoard)]
      ensures board == Advance(old(board), old(currentTile).positionOnBoard, nextTile.positionOnBoard)
    {
      var cur := currentTile;
      TileIsAtItsPosition(nextTile);
      AdvanceTiles(cur, nextTile);
      visitedTiles := visitedTiles + [cur];
      currentTile := nextTile;
      passages := passages + [(cur.positionOnBoard, nextTile.positionOnBoard)];
      board := Advance(board, cur.positionOnBoard, nextTile.positionOnBoard);
      SyncedAfterAdvance();
    }

    /** The tile updates of the forward branch: `cur` is visited, the walls
        between it and `nextTile` are removed and `nextTile` becomes current. */
    method AdvanceTiles(cur: Tile, nextTile: Tile)
      requires cur != nextTile
      modifies cur, nextTile
      ensures var carved := Carve(cur.positionOnBoard, nextTile.positionOnBoard, old(cur.WallFlags()), old(nextTile.WallFlags()));
        cur.State() == Visited(old(cur.State())).(walls := carved.0) &&
        nextTile.State() == old(nextTile.State()).(walls := carved.1, current := true)
    {
      cur.Visit();
      RemoveWallsBetween(cur, nextTile);
      nextTile.Current();
    }

    /** setExitTile: the draw picks a corner clockwise from the top left, and the
        tile there, found by its name, is flagged as the exit. */
    method SetExitTile(draw: nat)
      requires Synced()
      modifies this`board, TileAt(ExitCorner(amountOfTiles, draw % 4))
      ensures Synced()
      ensures var e := ExitCorner(amountOfTiles, draw % 4); board == old(board)[e := old(board)[e].(end := true)]
    {
      var random := draw % 4;
      var s := ExitTileName(amountOfTiles, random);
      var tile := GetTile(s);
      tile.isEndTile := true;
      board := board[tile.positionOnBoard := board[tile.positionOnBoard].(end := true)];
      SyncedAfterTile(tile);
    }

    /** `currentTile?.visit()`: the current tile is visited and no longer current. */
    method VisitCurrent()
      requires Linked() && Synced()
      modifies currentTile, this`board
      ensures Synced()
      ensures var c := currentTile.positionOnBoard; board == old(board)[c := Visited(old(board)[c])]
    {
      var c := currentTile.positionOnBoard;
      TileIsAtItsPosition(currentTile);
      currentTile.Visit();
      board := board[c := Visited(board[c])];
      SyncedAfterTile(currentTile);
    }

    /** `currentTile = visitedTiles.popLast()` followed by `currentTile?.current()`:
        the top of the stack is popped and becomes the current tile. */
    method PopCurrent()
      requires Linked() && Synced() && visitedTiles != []
      modifies this`currentTile, this`visitedTiles, this`board, visitedTiles[|visitedTiles| - 1]
      ensures Linked() && Synced()
      ensures currentTile == old(visitedTiles[|visitedTiles| - 1])
      ensures visitedTiles == old(visitedTiles[..|visitedTiles| - 1])
      ensures var b := currentTile.positionOnBoard; board == old(board)[b := old(board)[b].(current := true)]
    {
      currentTile := visitedTiles[|visitedTiles| - 1];
      visitedTiles := visitedTiles[..|visitedTiles| - 1];
      var b := currentTile.positionOnBoard;
      TileIsAtItsPosition(currentTile);
      currentTile.Current();
      board := board[b := board[b].(current := true)];
      SyncedAfterTile(currentTile);
    }

    /** After the forward branch's changes to the old current tile and to the new
        one, and to no other tile, the ghost board updated by a forward step still
        holds the flags of the tiles. */
    twostate lemma SyncedAfterAdvance()
      requires old(Synced()) && tileContainer == old(tileContainer)
      requires old(currentTile) != null && old(currentTile) in tileContainer
      requires currentTile != null && currentTile in tileContainer && old(currentTile) != currentTile
      requires var cur, next := old(currentTile), currentTile;
        var carved := Carve(cur.positionOnBoard, next.positionOnBoard, old(cur.WallFlags()), old(next.WallFlags()));
        cur.State() == Visited(old(cur.State())).(walls := carved.0) &&
        next.State() == old(next.State()).(walls := carved.1, current := true)
      requires forall v :: v in tileContainer && v != old(currentTile) && v != currentTile ==> v.State() == old(v.State())
      requires old(currentTile).positionOnBoard in old(board) && currentTile.positionOnBoard in old(board)
      requires board == Advance(old(board), old(currentTile).positionOnBoard, currentTile.positionOnBoard)
      ensures Synced()
    {
      var cur, next := old(currentTile), currentTile;
      var c, n := cur.positionOnBoard, next.positionOnBoard;
      TileIsAtItsPosition(cur);
      TileIsAtItsPosition(next);
      TilesOnBoard();
      AdvanceAt(old(board), c, n);
    }

    /** When only the tile `t` of the board has changed, and the ghost board
        has changed at its position only, to its new flags, the two still agree. */
    twostate lemma SyncedAfterTile(t: Tile)
      requires old(Synced()) && tileContainer == old(tileContainer) && t in tileContainer
      requires forall v :: v in tileContainer && v != t ==> v.State() == old(v.State())
      requires board == old(board)[t.positionOnBoard := t.State()]
      ensures Synced()
    {
      TileIsAtItsPosition(t);
      TilesOnBoard();
    }

    /** createBoard's branch for a current tile without unvisited neighbours: the
        current tile is visited; with an empty stack the map is created and the
        exit is set with the draw `exitDraw`, otherwise the stack is popped. */
    method StepBack(exitDraw: nat)
      requires Linked() && Synced() && !isMapCreated
      modifies this`currentTile, this`visitedTiles, this`isMapCreated, this`passages, this`board, tileContainer
      ensures Linked() && Synced()
      ensures Abstract() == Backward(old(Abstract()), ExitCorner(amountOfTiles, exitDraw % 4))
    {
      ghost var stack0 := visitedTiles;
      VisitCurrent();
      if visitedTiles == [] {
        isMapCreated := true;
        SetExitTile(exitDraw);
        return;
      }
      PositionsPrefix(stack0, |stack0| - 1);
      PopCurrent();
    }

    /** One iteration of createBoard's loop: while some neighbour of the current
        tile is unvisited, one of them, picked by `pick`, is carved into and
        becomes current, and the old current tile is pushed; otherwise the
        iteration steps back. */
    method GenerateStep(pick: nat, exitDraw: nat)
      requires Linked() && Synced() && !isMapCreated
      modifies this`currentTile, this`visitedTiles, this`isMapCreated, this`passages, this`board, tileContainer
      ensures Linked() && Synced()
      ensures Abstract() == GenStep(old(Abstract()), pick, ExitCorner(amountOfTiles, exitDraw % 4))
    {
      ghost var w := Abstract();
      var cur := currentTile;
      ghost var stack0 := visitedTiles;
      var nextTile := FindNextNeighbour(pick);
      CandidatesAreFreshNeighbours(w.board, w.cur);
      if nextTile != null {
        StepForward(nextTile);
        PositionsAppend(stack0, [cur]);
        assert Positions([cur]) == [w.cur];
      } else {
        StepBack(exitDraw);
      }
    }

    /** createBoard: the randomized depth-first generator, run until the map is
        created. `draws(k)` is the draw of the k-th call to findNextNeighbour and
        `exitDraw` the draw of setExitTile. The result is a perfect maze over the
        whole board, grown from the starting tile, with one exit at the corner
        the exit draw picks. */
    method CreateBoard(draws: nat -> nat, exitDraw: nat)
      requires Linked() && Synced() && !isMapCreated && 0 <= startingTile < |tileContainer|
      requires GeneratorInvariant(amountOfTiles, board, StartPosition(), currentTile.positionOnBoard,
                                  Positions(visitedTiles), passages)
      modifies this`currentTile, this`visitedTiles, this`isMapCreated, this`passages, this`board, tileContainer
      ensures Linked() && Synced() && isMapCreated && visitedTiles == []
      ensures MazeComplete(amountOfTiles, board, StartPosition(), passages)
      ensures ExitAt(board, ExitCorner(amountOfTiles, exitDraw % 4))
    {
      ghost var start := StartPosition();
      ghost var exit := ExitCorner(amountOfTiles, exitDraw % 4);
      var call := 0;
      while !isMapCreated
        invariant Linked() && Synced() && start == StartPosition()
        invariant WalkInvariant(amountOfTiles, Abstract(), start, exit)
        decreases Progress(Abstract())
      {
        ghost var w := Abstract();
        GenerateStep(draws(call), exitDraw);
        GenStepKeepsInvariant(amountOfTiles, w, start, draws(call), exit);
        call := call + 1;
      }
    }

    /** The tiles of a generated board: every tile is visited and none is
        current, the starting tile is the only start, and the tile at the exit
        corner is the only exit. */
    lemma GeneratedTiles(e: Point)
      requires Synced() && 0 <= startingTile < |tileContainer| && InGrid(amountOfTiles, e)
      requires MazeComplete(amountOfTiles, board, StartPosition(), passages) && ExitAt(board, e)
      ensures forall t :: t in tileContainer ==>
        t.hasBeenVisited && !t.isCurrent &&
        (t.isStartingTile <==> t == tileContainer[startingTile]) && (t.isEndTile <==> t == TileAt(e))
    {
      TilesOnBoard();
      forall t | t in tileContainer
        ensures t.hasBeenVisited && !t.isCurrent
        ensures (t.isStartingTile <==> t == tileContainer[startingTile]) && (t.isEndTile <==> t == TileAt(e))
      {
        TileIsAtItsPosition(t);
        assert board[t.positionOnBoard] == t.State();
      }
    }

    // -------------------------------------------------------------------------
    // Starting a board

    /** The loop at the head of newBoard: every tile is reset. */
    method ResetTiles()
      requires BoardBuilt()
      modifies tileContainer
      ensures forall t :: t in tileContainer ==> t.State() == InitialFlags
    {
      TilesDistinct();
      var i := 0;
      while i < |tileContainer|
        invariant 0 <= i <= |tileContainer|
        invariant forall j :: 0 <= j < i ==> tileContainer[j].State() == InitialFlags
      {
        tileContainer[i].ResetTile();
        i := i + 1;
      }
    }

    /** newBoard: every tile is reset, the draw `startDraw` picks the starting
        tile, which becomes current and is flagged as the start and as the
        previous tile, and createBoard grows the maze from it with the draws
        `draws` and `exitDraw`. */
    method NewBoard(startDraw: nat, draws: nat -> nat, exitDraw: nat)
      requires BoardBuilt() && visitedTiles == []
      modifies this`startingTile, this`currentTile, this`previousTile, this`isGameOver, this`isMapCreated
      modifies this`visitedTiles, this`passages, this`board, tileContainer
      ensures Linked() && Synced() && isMapCreated && !isGameOver && visitedTiles == []
      ensures startingTile == startDraw % (amountOfTiles * amountOfTiles)
      ensures previousTile == tileContainer[startingTile]
      ensures MazeComplete(amountOfTiles, board, StartPosition(), passages)
      ensures ExitAt(board, ExitCorner(amountOfTiles, exitDraw % 4))
    {
      ResetTiles();
      isGameOver := false;
      PlaceStart(startDraw);
      CreateBoard(draws, exitDraw);
    }

    /** The part of newBoard between the reset and createBoard: the starting
        tile is drawn, made current, flagged as the start and remembered as the
        previous tile, and the map is marked as not created. */
    method PlaceStart(startDraw: nat)
      requires BoardBuilt() && visitedTiles == []
      requires forall t :: t in tileContainer ==> t.State() == InitialFlags
      modifies this`startingTile, this`currentTile, this`previousTile, this`isMapCreated
      modifies this`passages, this`board, tileContainer
      ensures Linked() && Synced() && !isMapCreated
      ensures startingTile == startDraw % (amountOfTiles * amountOfTiles)
      ensures previousTile == tileContainer[startingTile] && currentTile == previousTile
      ensures GeneratorInvariant(amountOfTiles, board, StartPosition(), currentTile.positionOnBoard,
                                 Positions(visitedTiles), passages)
    {
      startingTile := startDraw % (amountOfTiles * amountOfTiles);
      currentTile := tileContainer[startingTile];
      MarkStart(currentTile);
      previousTile := currentTile;
      isMapCreated := false;
      passages := [];
      ghost var start := currentTile.positionOnBoard;
      board := FreshBoard(amountOfTiles, start);
      StartSynced();
      FreshBoardStartsGenerator(amountOfTiles, start);
    }

    /** `currentTile?.current()` and `currentTile?.isStartingTile = true`. */
    method MarkStart(t: Tile)
      modifies t
      ensures t.State() == old(t.State()).(current := true, start := true)
    {
      t.Current();
      t.isStartingTile := true;
    }

    /** After the reset and the marking of the starting tile, the fresh board
        holds the flags of the tiles. */
    lemma StartSynced()
      requires BoardBuilt() && currentTile != null && currentTile in tileContainer
      requires currentTile.State() == InitialFlags.(current := true, start := true)
      requires forall t :: t in tileContainer && t != currentTile ==> t.State() == InitialFlags
      requires board == FreshBoard(amountOfTiles, currentTile.positionOnBoard)
      ensures Synced()
    {
      TileIsAtItsPosition(currentTile);
      TilesOnBoard();
    }

    /** The grid loop of didMove: for each row y and each x, a new tile at (x, y)
        is inserted at index x + y*N, which in this order is the end of the
        container. */
    method BuildTiles()
      requires 1 <= amountOfTiles && tileContainer == []
      modifies this`tileContainer
      ensures BoardBuilt() && forall i :: 0 <= i < |tileContainer| ==> fresh(tileContainer[i])
    {
      var y := 0;
      while y < amountOfTiles
        invariant 0 <= y <= amountOfTiles && |tileContainer| == y * amountOfTiles
        invariant forall i :: 0 <= i < |tileContainer| ==> Placed(i, tileContainer[i])
        invariant forall i :: 0 <= i < |tileContainer| ==> fresh(tileContainer[i])
      {
        var x := 0;
        while x < amountOfTiles
          invariant 0 <= x <= amountOfTiles && |tileContainer| == y * amountOfTiles + x
          invariant forall i :: 0 <= i < |tileContainer| ==> Placed(i, tileContainer[i])
          invariant forall i :: 0 <= i < |tileContainer| ==> fresh(tileContainer[i])
        {
          var tile := new Tile(Point(x, y));
          ghost var before := tileContainer;
          tileContainer := tileContainer[..x + y * amountOfTiles] + [tile] + tileContainer[x + y * amountOfTiles..];
          assert tileContainer == before + [tile];
          x := x + 1;
        }
        assert (y + 1) * amountOfTiles == y * amountOfTiles + amountOfTiles;
        y := y + 1;
      }
    }

    /** didMove: the grid of tiles is built and newBoard starts the first board. */
    method DidMove(startDraw: nat, draws: nat -> nat, exitDraw: nat)
      requires 1 <= amountOfTiles && tileContainer == [] && visitedTiles == []
      modifies this
      ensures BoardBuilt() && forall i :: 0 <= i < |tileContainer| ==> fresh(tileContainer[i])
      ensures Linked() && Synced() && isMapCreated && !isGameOver && visitedTiles == []
      ensures startingTile == startDraw % (amountOfTiles * amountOfTiles)
      ensures previousTile == tileContainer[startingTile]
      ensures MazeComplete(amountOfTiles, board, StartPosition(), passages)
      ensures ExitAt(board, ExitCorner(amountOfTiles, exitDraw % 4))
    {
      BuildTiles();
      NewBoard(startDraw, draws, exitDraw);
    }

    // -------------------------------------------------------------------------
    // Playing

    /** isNextTile: the player may move from `previousTile` to `nextTile` exactly
        when `nextTile` is one step away across some side of `previousTile` on
        which `previousTile` has no wall. The sides are tested left, right,
        bottom, top. */
    function IsNextTile(previousTile: Tile, nextTile: Tile): (r: bool)
      reads previousTile`hasTopWall, previousTile`hasRightWall, previousTile`hasBottomWall, previousTile`hasLeftWall
      ensures r <==> exists s :: Neighbour(previousTile.positionOnBoard, s) == nextTile.positionOnBoard &&
                                 !Has(previousTile.WallFlags(), s)
    {
      var p, q := previousTile.positionOnBoard, nextTile.positionOnBoard;
      if p.x - 1 == q.x && p.y == q.y then
        assert Neighbour(p, Left) == q;
        !previousTile.hasLeftWall
      else if p.x + 1 == q.x && p.y == q.y then
        assert Neighbour(p, Right) == q;
        !previousTile.hasRightWall
      else if p.y - 1 == q.y && p.x == q.x then
        assert Neighbour(p, Bottom) == q;
        !previousTile.hasBottomWall
      else if p.y + 1 == q.y && p.x == q.x then
        assert Neighbour(p, Top) == q;
        !previousTile.hasTopWall
      else
        false
    }

    /** On a board whose shared walls agree the way the generator keeps them, a
        move up or down can be taken back. */
    lemma VerticalMoveReversible(a: Tile, b: Tile)
      requires Synced() && SharedWallsConsistent(board) && a in tileContainer && b in tileContainer
      requires IsNextTile(a, b) && a.positionOnBoard.x == b.positionOnBoard.x
      ensures IsNextTile(b, a)
    {
      TileIsAtItsPosition(a);
      TileIsAtItsPosition(b);
      var p, q := a.positionOnBoard, b.positionOnBoard;
      if q.y == p.y + 1 {
        assert Neighbour(p, Top) == q && Neighbour(q, Bottom) == p;
      } else {
        assert Neighbour(p, Bottom) == q && Neighbour(q, Top) == p;
      }
    }

    /** On such a board a move to the left can be taken back. */
    lemma LeftMoveReversible(a: Tile, b: Tile)
      requires Synced() && SharedWallsConsistent(board) && a in tileContainer && b in tileContainer
      requires IsNextTile(a, b) && b.positionOnBoard.x < a.positionOnBoard.x
      ensures IsNextTile(b, a)
    {
      TileIsAtItsPosition(a);
      TileIsAtItsPosition(b);
      var p, q := a.positionOnBoard, b.positionOnBoard;
      assert Neighbour(p, Left) == q && Neighbour(q, Right) == p;
    }

    /** One touched tile of touchesMoved, once the touch has been located on
        `tile`: while the map is created and the game is not over, touching the
        exit ends the game (gameOver), and a tile the previous tile opens onto
        becomes the previous tile. */
    method TouchTile(tile: Tile)
      requires isMapCreated ==> previousTile != null
      modifies this`isGameOver, this`previousTile
      ensures var playing := old(isMapCreated && !isGameOver);
        isGameOver == (old(isGameOver) || (playing && tile.isEndTile)) &&
        previousTile == (if playing && IsNextTile(old(previousTile), tile) then tile else old(previousTile))
    {
      if isMapCreated && !isGameOver {
        if tile.isEndTile {
          isGameOver := true;
        }
        if IsNextTile(previousTile, tile) {
          previousTile := tile;
        }
      }
    }
  }
}
