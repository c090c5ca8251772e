# iReMaze maze core in Dafny

iReMaze is a SpriteKit maze game. Its `GameScene` builds an N x N grid of `Tile`s. It grows a perfect maze over that grid with a randomized depth-first backtracker (`newBoard`, `createBoard`, `findNextNeighbour`, `setExitTile`). As the player drags across the maze, it checks each step against the walls (`isNextTile` and the touch handler).

This project models that core in Dafny:

- `geometry.dfy` (module `Geometry`):
  - positions and the four sides, where +y is the top;
  - the index `x + y*N` of a position in the tile container;
  - the connectivity of the grid;
  - the four exit corners.
- `walls.dfy` (module `Walls`):
  - the four wall flags of a tile;
  - the floor texture name `"Tile_" + bits`;
  - the wall update `createBoard` makes between two tiles, as written;
  - the corrected version of that update.
- `names.dfy` (module `Names`): the tile name `"Tile_x_y"` with decimal coordinates, and a proof that distinct positions get distinct names.
- `tile.dfy` (module `Tiles`): class `Tile`, covering its flags, `init`, `resetTile`, `visit`, `current` and `drawFloorSprite`.
- `maze.dfy` (module `Maze`): the content of a board as a value (`map<Point, Flags>`) and the generator stated on it:
  - one loop iteration is `GenStep` on a `Walk` value;
  - `GeneratorInvariant` is the invariant the loop keeps;
  - `Progress` is the measure that proves termination;
  - `MazeComplete` is the result: every tile visited, outer walls intact, N*N - 1 passages forming a tree from the start over the whole board, and the walls open exactly where those passages were carved (`WallsMatchPassages`).
- `game_scene.dfy` (module `Scene`): class `GameScene` with the fields the source updates, and one method per source operation:
  - `DidMove`, `NewBoard`, `CreateBoard`, `FindNextNeighbour`, `GetTile`, `SetExitTile`, `IsNextTile`, `TouchTile`;
  - a ghost field `board` that the methods keep equal to the flags of the tiles (`Synced`).

  Each method that changes the scene states its new state in terms of the pure functions of `Maze`. The loop of `createBoard` is proved against `Maze.GenStep`.

Every call to `arc4random_uniform(k)` becomes a draw `d` supplied by the caller and reduced to `d % k`:

- `startDraw` picks the starting tile;
- `draws(i)` serves the i-th call to `findNextNeighbour`;
- `exitDraw` picks the exit corner.

The proved properties therefore hold for every random outcome.

`N` (`amountOfTiles`) is a constructor parameter with `N >= 1`. The source fixes it at 5 (iReMaze/GameScene.swift:185).

Three behaviours of the code shape the model:

- The comment at iReMaze/GameScene.swift:276 promises to remove the walls between the two tiles. Going right, line 290 sets the neighbour's left wall to `true` (see Findings). `Maze.SharedWallsConsistent` therefore states only what the code keeps: vertical walls agree on both sides, and a left opening comes with the matching right opening. `Maze.WallsMatchPassages` says the same in terms of the carved passages: a side is open exactly when a passage crosses it, except the left side of a tile reached by a step to the right.
- `newBoard` draws the starting tile and `setExitTile` draws the exit corner independently, so the two may coincide on any board. `ExitAt` places no constraint relative to the start.
- `isNextTile` returns `false` for a tile that is not adjacent to the previous one, and also for the previous tile itself.

## Model

| member | source | states |
|---|---|---|
| Geometry.UnitStepIsNeighbour | iReMaze/GameScene.swift:371-401 | every position at distance one is the neighbour across some side |
| Geometry.NeighbourOpposite | iReMaze/GameScene.swift:371-401 | stepping across a side and then across the opposite side returns to the start |
| Geometry.NeighbourSideUnique | iReMaze/GameScene.swift:371-401 | two sides lead to the same neighbour only if they are the same side |
| Geometry.IndexInRange | iReMaze/GameScene.swift:225-236 | every board position has an index `x + y*N` in `[0, N*N)` |
| Geometry.IndexInjective | iReMaze/GameScene.swift:225-236 | two board positions with the same index are the same position |
| Geometry.ClosedSetCoversGrid | iReMaze/GameScene.swift:270-318 | the grid is connected: a set closed under unit steps that holds one board position holds every board position |
| Geometry.ExitCorner | iReMaze/GameScene.swift:411-430 | the exit position for a draw is a corner of the board and lies on it |
| Geometry.EveryCornerCanBeExit | iReMaze/GameScene.swift:413-425 | each of the four corners is chosen by some draw below four |
| Walls.SetSide | iReMaze/GameScene.swift:277-303 | setting one side's flag changes that flag only |
| Walls.Carve | iReMaze/GameScene.swift:277-303 | the wall update of createBoard as written: the current tile only loses walls, at least one, and the neighbour gains no wall except possibly its left one |
| Walls.WallsOfTexture | iReMaze/Tile.swift:148-173 | decoding a texture name gives flags only for `"Tile_"` followed by four binary digits |
| Walls.TextureRoundTrip | iReMaze/Tile.swift:148-173 | every texture name is 9 characters long and decodes to the flags that produced it |
| Walls.TextureOnlyRoundTrip | iReMaze/Tile.swift:148-173 | a name that decodes to some flags is the texture name of those flags |
| Walls.TextureNameInjective | iReMaze/Tile.swift:148-173 | distinct wall configurations get distinct texture names |
| Walls.AllWallsTexture | iReMaze/Tile.swift:55 | a tile with every wall shows `"Tile_1111"`, the image a new tile starts with |
| Walls.TextureName | iReMaze/Tile.swift:148-172 | the texture drawFloorSprite selects is nine characters: `"Tile_"` and then one binary digit per wall |
| Walls.CarveTouchesOnlyFacingSides | iReMaze/GameScene.swift:277-303 | carving opens the current tile's side facing the neighbour and no other; of the neighbour only the side facing back can change |
| Walls.CarveSymmetricExceptRight | iReMaze/GameScene.swift:280-303 | going left, up or down, both facing flags end up open |
| Walls.CarveRightLeavesLeftWall | iReMaze/GameScene.swift:286-291 | going right, the current tile's right wall opens, and the neighbour's left wall is present afterwards whatever it was before |
| Walls.CarveIntended | iReMaze/GameScene.swift:276-303 | the corrected carve opens one side of the current tile and the opposite side of the neighbour, and changes nothing else |
| Walls.CarveIntendedSymmetric | iReMaze/GameScene.swift:276-303 | the corrected carve opens both facing flags in every direction and changes nothing else |
| Names.NatToStringRoundTrip | iReMaze/Tile.swift:64 | the decimal text of a natural number is non-empty, is all digits, and reads back as the number |
| Names.IntToString | iReMaze/Tile.swift:64 | the decimal text of an `Int` is non-empty and starts with `-` exactly when the number is negative |
| Names.IntToStringInjective | iReMaze/Tile.swift:64 | distinct integers have distinct decimal texts |
| Names.IntToStringHasNoUnderscore | iReMaze/Tile.swift:64 | the decimal text of an integer holds no `_` |
| Names.TileName | iReMaze/Tile.swift:64 | a tile name is `"Tile_"` followed by at least the two coordinates and the separator; `TileNameInjective` shows it identifies the position |
| Names.TileNameInjective | iReMaze/Tile.swift:64 | distinct positions get distinct tile names |
| Names.ExitTileName | iReMaze/GameScene.swift:413-425 | the name setExitTile builds for a draw is the name of the tile at the corner that draw selects |
| Tiles.Tile.constructor | iReMaze/Tile.swift:23-64 | a new tile has the given position, the name `"Tile_x_y"`, every wall, no flag set, and the texture its walls select |
| Tiles.Tile.ResetTile | iReMaze/Tile.swift:116-133 | the tile's logical state becomes the initial one, whatever it was |
| Tiles.Tile.Visit | iReMaze/Tile.swift:135-140 | visited becomes true and current false; walls, start and end are kept; a second visit changes nothing |
| Tiles.Tile.Current | iReMaze/Tile.swift:142-146 | current becomes true and nothing else changes |
| Tiles.Tile.DrawFloorSprite | iReMaze/Tile.swift:148-173 | the texture becomes the name of the walls and decodes back to them; the flags do not change |
| Maze.Cells | iReMaze/GameScene.swift:225-236 | the set of board positions holds exactly the positions with `0 <= x, y < N` |
| Maze.CellsCount | iReMaze/GameScene.swift:225-236 | an N x N board has N*N positions |
| Maze.CarveKeepsWalls | iReMaze/GameScene.swift:277-303 | carving between two neighbours keeps every outer wall and the agreement of the shared walls |
| Maze.CarveKeepsBoundary | iReMaze/GameScene.swift:277-303 | carving between two neighbours never opens a side that faces off the board |
| Maze.CarveKeepsVertical | iReMaze/GameScene.swift:295-303 | after a carve the wall between a tile and the tile above it is still present on both or on neither |
| Maze.CarveKeepsHorizontal | iReMaze/GameScene.swift:280-291 | after a carve a left opening still comes with the right opening of the tile to the left |
| Maze.Candidates | iReMaze/GameScene.swift:446-488 | at most four candidates, no two the same, each an unvisited board position one step away |
| Maze.CandidatesAreFreshNeighbours | iReMaze/GameScene.swift:446-491 | the candidates are exactly the unvisited board positions one step away, and there are none exactly when every neighbour is visited |
| Maze.Advance | iReMaze/GameScene.swift:272-306 | a forward step keeps the board's positions, leaves the old current tile visited and the next tile current, and changes no other tile |
| Maze.Retreat | iReMaze/GameScene.swift:307-316 | a step back keeps the positions and every wall, leaves the old current tile visited and the popped tile current, and changes no other tile |
| Maze.Finish | iReMaze/GameScene.swift:307-312 | the last step keeps the positions and every wall, leaves the last tile visited and not current, flags the exit, and changes no other tile |
| Maze.Forward | iReMaze/GameScene.swift:272-306 | a forward step of the loop keeps the walk on the board, moves it to the chosen tile, and logs exactly one more passage after the earlier ones |
| Maze.Backward | iReMaze/GameScene.swift:307-316 | a step without a fresh neighbour logs no passage; it ends the loop exactly when the stack is empty, and otherwise pops one position |
| Maze.GenStep | iReMaze/GameScene.swift:272-316 | one loop iteration keeps the walk on the board and carves a passage exactly when the current tile has an unvisited neighbour |
| Maze.AdvanceAt | iReMaze/GameScene.swift:272-306 | a forward step changes only the current tile, which is visited and carved, and the next tile, which is carved and becomes current |
| Maze.GenStepKeepsInvariant | iReMaze/GameScene.swift:271-317 | each loop iteration keeps the generator's invariant and decreases the progress measure, so the loop ends with a perfect maze and the exit set |
| Maze.ForwardKeepsInvariant | iReMaze/GameScene.swift:272-306 | a forward step to an unvisited neighbour keeps the loop invariant and decreases the progress measure |
| Maze.BackwardKeepsInvariant | iReMaze/GameScene.swift:307-316 | an iteration with no unvisited neighbour keeps the loop invariant and decreases the progress measure |
| Maze.FinishKeepsInvariant | iReMaze/GameScene.swift:307-312 | the iteration that finds the stack empty sets up the finished state: a perfect maze with the exit at the drawn corner |
| Maze.RetreatWalkKeepsInvariant | iReMaze/GameScene.swift:314-315 | the iteration that pops the stack keeps the loop invariant and decreases the progress measure |
| Maze.UnreachedShrinks | iReMaze/GameScene.swift:272-306 | a forward step reaches exactly one more position |
| Maze.StackBounded | iReMaze/GameScene.swift:274 | while generating, the stack holds at most N*N - 1 positions |
| Maze.FreshBoardStartsGenerator | iReMaze/GameScene.swift:247-266 | the board newBoard hands to createBoard satisfies the generator's invariant with an empty stack and no passages |
| Maze.FreshBoard | iReMaze/GameScene.swift:247-265 | the board newBoard hands to createBoard covers the N x N positions; every tile has every wall and is unvisited and not the exit, and only the start is current and flagged as the start |
| Maze.SameWallsSameInvariants | iReMaze/GameScene.swift:307-315 | changing flags other than the walls keeps the wall predicates |
| Maze.SameWallsSamePassages | iReMaze/GameScene.swift:307-315 | changing flags other than the walls keeps the walls matching the passages |
| Maze.EndsCount | iReMaze/GameScene.swift:272-306 | passages grown as a tree lead to as many distinct positions as there are passages |
| Maze.GrowPassages | iReMaze/GameScene.swift:272-306 | a passage from a reached to an unreached position keeps the passages a tree and adds that position to the ends |
| Maze.GrownFromPrefix | iReMaze/GameScene.swift:272-306 | dropping the last passage leaves a tree grown from the start |
| Maze.PassagesLeaveReached | iReMaze/GameScene.swift:272-306 | every carved passage leaves a tile the walk has already reached |
| Maze.AdvanceKeepsInvariant | iReMaze/GameScene.swift:272-306 | a forward step to an unvisited neighbour keeps the generator's invariant and shrinks the set of unreached positions |
| Maze.AdvanceKeepsPassageWalls | iReMaze/GameScene.swift:277-303 | a forward step opens exactly the walls of the passage it logs: the current tile towards the next one, and the next tile back unless the step goes right |
| Maze.AdvanceWallAt | iReMaze/GameScene.swift:277-303 | the same, one side of one tile at a time |
| Maze.AdvanceKeepsWalls | iReMaze/GameScene.swift:272-306 | a forward step keeps the outer walls and the shared-wall agreement |
| Maze.AdvanceKeepsWalk | iReMaze/GameScene.swift:272-306 | a forward step keeps the stack well formed (visited, distinct, not current), the frontier closed and the marks in place |
| Maze.AdvanceMarks | iReMaze/GameScene.swift:272-306 | a forward step visits the current tile, moves the current mark to the next tile, and keeps the start and end flags |
| Maze.AppendPassageOnBoard | iReMaze/GameScene.swift:272-306 | a passage between two neighbouring board positions keeps every passage on the board |
| Maze.AdvanceGrowsTree | iReMaze/GameScene.swift:272-306 | a forward step extends the passage tree by one passage to the next tile |
| Maze.RetreatKeepsInvariant | iReMaze/GameScene.swift:307-315 | popping the stack when no neighbour is unvisited keeps the invariant and reaches nothing new |
| Maze.RetreatKeepsReached | iReMaze/GameScene.swift:307-315 | a step back reaches no new position |
| Maze.RetreatMarks | iReMaze/GameScene.swift:307-315 | a step back visits the current tile, moves the current mark to the popped tile, and changes nothing else |
| Maze.RetreatKeepsWalk | iReMaze/GameScene.swift:307-315 | a step back keeps the stack well formed, the frontier closed and the marks in place |
| Maze.ClosedWalkVisitsAll | iReMaze/GameScene.swift:270-318 | when no visited tile has an unvisited neighbour, every tile is visited |
| Maze.FinishCompletesMaze | iReMaze/GameScene.swift:307-312 | the last step leaves a perfect maze with exactly one exit, at the drawn corner |
| Maze.FinishMarks | iReMaze/GameScene.swift:307-312 | the last step visits the current tile, clears the current mark and flags the exit, and changes nothing else |
| Maze.FinishVisitsAll | iReMaze/GameScene.swift:307-312 | with an empty stack and no unvisited neighbour, every tile is visited |
| Maze.FinishCountsPassages | iReMaze/GameScene.swift:270-318 | once every tile is reached, the passages lead to every position except the start, and there are N*N - 1 of them |
| Maze.MazeOpensPassages | iReMaze/GameScene.swift:270-318 | in a finished maze every passage is open from the tile it leaves, so on a board of side 2 or more some wall has been removed |
| Maze.PassagesOpen | iReMaze/GameScene.swift:277-303 | every passage the walls match is open from its first tile |
| Maze.PassageOpen | iReMaze/GameScene.swift:277-303 | one passage the walls match is open from its first tile, which therefore does not have every wall |
| Scene.Positions | iReMaze/GameScene.swift:274 | the positions of a sequence of tiles, index by index |
| Scene.CollectedAreCandidates | iReMaze/GameScene.swift:446-488 | the tiles collected right, left, top, bottom are at the candidate positions, in that order |
| Scene.GameScene.constructor | iReMaze/GameScene.swift:182-206 | a scene starts with no tiles, an empty stack, no current or previous tile, and the map not created |
| Scene.GameScene.TilesOnBoard | iReMaze/GameScene.swift:225-236 | every tile of the built board lies on the board, and no two tiles share a position |
| Scene.GameScene.TileAt | iReMaze/GameScene.swift:225-236 | the tile at index `x + y*N` has position (x, y) |
| Scene.GameScene.TileIsAtItsPosition | iReMaze/GameScene.swift:225-236 | each tile is the tile at its own index |
| Scene.GameScene.NameIdentifiesTile | iReMaze/GameScene.swift:501-508 | the only tile named `"Tile_x_y"` is the tile at (x, y) |
| Scene.GameScene.TilesDistinct | iReMaze/GameScene.swift:225-236 | no tile appears at two indices |
| Scene.GameScene.Abstract | iReMaze/GameScene.swift:270-318 | the loop state read as a value keeps the current and stacked positions on the board |
| Scene.GameScene.GetTile | iReMaze/GameScene.swift:501-508 | returns a tile with the given name, nil exactly when no tile has it, and for `"Tile_x_y"` on the board the tile at (x, y) |
| Scene.GameScene.CollectSide | iReMaze/GameScene.swift:446-456 | one side's block appends the neighbour on that side exactly when it is on the board and unvisited |
| Scene.GameScene.FindNextNeighbour | iReMaze/GameScene.swift:432-499 | nil exactly when every neighbour is visited; otherwise an unvisited tile one step away, the candidate the draw's remainder selects |
| Scene.GameScene.RemoveWallsBetween | iReMaze/GameScene.swift:276-303 | the two tiles' walls become what `Walls.Carve` gives |
| Scene.GameScene.AdvanceTiles | iReMaze/GameScene.swift:273-306 | the old current tile is visited and carved, and the next tile is carved and becomes current |
| Scene.GameScene.StepForward | iReMaze/GameScene.swift:272-306 | the current tile is pushed, the walls are carved, the next tile becomes current, and the board takes a forward step |
| Scene.GameScene.SetExitTile | iReMaze/GameScene.swift:411-430 | the tile at the drawn corner is flagged as the exit and nothing else changes |
| Scene.GameScene.VisitCurrent | iReMaze/GameScene.swift:308 | the current tile's flags become visited and not current |
| Scene.GameScene.PopCurrent | iReMaze/GameScene.swift:314-315 | the top of the stack is popped and becomes current |
| Scene.GameScene.SyncedAfterAdvance | iReMaze/GameScene.swift:272-306 | after a forward step on the tiles and on the board, the two still agree |
| Scene.GameScene.SyncedAfterTile | iReMaze/GameScene.swift:308-315 | after a change to one tile and to its board entry, the two still agree |
| Scene.GameScene.StepBack | iReMaze/GameScene.swift:307-316 | the iteration without a fresh neighbour is `Maze.Backward`: pop, or finish and set the exit |
| Scene.GameScene.GenerateStep | iReMaze/GameScene.swift:272-316 | one loop iteration is `Maze.GenStep` with the iteration's draw |
| Scene.GameScene.CreateBoard | iReMaze/GameScene.swift:270-318 | terminates with the map created, the stack empty, every tile visited and none current, N*N - 1 passages forming a tree from the start over the whole board, the walls open exactly where those passages were carved, outer walls intact, and exactly one exit at the drawn corner |
| Scene.GameScene.GeneratedTiles | iReMaze/GameScene.swift:247-268 | on a generated board exactly the starting tile is the start and exactly the corner tile is the exit; every tile is visited and none is current |
| Scene.GameScene.ResetTiles | iReMaze/GameScene.swift:248-250 | every tile is back in its initial state |
| Scene.GameScene.PlaceStart | iReMaze/GameScene.swift:255-265 | the starting index is the draw modulo N*N; that tile is current and the start, and is the previous tile; the generator's invariant holds |
| Scene.GameScene.MarkStart | iReMaze/GameScene.swift:258-260 | the starting tile becomes current and is flagged as the start; its other flags are kept |
| Scene.GameScene.StartSynced | iReMaze/GameScene.swift:247-265 | after the reset and the marking of the start, the tiles agree with the fresh board |
| Scene.GameScene.NewBoard | iReMaze/GameScene.swift:247-268 | the game is not over, the start is the drawn index, the previous tile is the start, and the board is a perfect maze with one exit at a drawn corner |
| Scene.GameScene.BuildTiles | iReMaze/GameScene.swift:225-236 | the container gets N*N new tiles, the one at index `x + y*N` at position (x, y) |
| Scene.GameScene.DidMove | iReMaze/GameScene.swift:225-244 | the grid is built and a first board is generated, with the guarantees of newBoard |
| Scene.GameScene.IsNextTile | iReMaze/GameScene.swift:371-401 | true exactly when the second tile is one step across a side on which the first has no wall; false for the same tile and for diagonal or distant tiles |
| Scene.GameScene.VerticalMoveReversible | iReMaze/GameScene.swift:371-401 | on a board whose shared walls agree, a move up or down can be taken back |
| Scene.GameScene.LeftMoveReversible | iReMaze/GameScene.swift:371-401 | on such a board a move to the left can be taken back |
| Scene.GameScene.TouchTile | iReMaze/GameScene.swift:356-366 | while the map is created and the game is not over, touching the exit ends the game, and a tile the previous tile opens onto becomes the previous tile; otherwise nothing changes |

## Left out

- Rendering is not modelled: SpriteKit nodes, colours, wall graphics, sprite textures and the camera. `drawFloorSprite`'s texture is kept as the string field `floorTexture`.
- Touch geometry is not modelled. Mapping a touch point to a tile via `floorGFX.contains` is floating-point geometry, so `TouchTile` receives the touched tile. The loop over several touches is also left out.
- The timer and `update` are not modelled: the `TimeInterval` clock, `runTimer`, and `update`'s call of `createBoard`, which finds the map already created because `newBoard` runs `createBoard` to completion.
- `UIManager`, `MenuScene`, `exit(0)`, scene transitions and the instruction label are not modelled.
- The copies of `Tile` and `UIManager` at iReMaze/GameScene.swift:16-172 are older versions of the modelled classes and are not modelled.
- The distribution of `arc4random_uniform` is not modelled. Draws are parameters, so uniformity and the absence of bias are not modelled.
- `Scene.GameScene.GenerateStep`, `StepBack`, `StepForward`, `VisitCurrent`, `PopCurrent`, `CollectSide`, `ResetTiles`, `PlaceStart` and `BuildTiles` are blocks of the source's inline code given their own methods. The source has no such functions.
- `GameScene.board` and `GameScene.passages` are ghost state with no counterpart in the source:
  - `board` mirrors the tiles' flags;
  - `passages` logs the carved pairs, so that "N*N - 1 carve steps" can be stated and the walls can be tied to them.
- `Scene.GameScene.NewBoard` requires an empty stack. Every caller meets this: `didMove` starts with one, and `createBoard` always returns with the stack empty.
- `Scene.GameScene.TouchTile` requires a previous tile once the map is created. The source's implicitly unwrapped `previousTile` would crash otherwise.

## Findings

| source | as written | input that shows it | evidently intended | confidence | as-written member | corrected member |
|---|---|---|---|---|---|---|
| iReMaze/GameScene.swift:290 | when the chosen neighbour is to the right, `nextTile.hasLeftWall = true`, so the neighbour keeps its left wall | any carve to the right, e.g. from (0,0) to (1,0) on a fresh board: afterwards (0,0) has no right wall but (1,0) still has its left wall, so `isNextTile((0,0),(1,0))` holds and `isNextTile((1,0),(0,0))` does not | `nextTile.hasLeftWall = false`, so the wall is removed on both sides as the comment at line 276 promises | high; not executed | Walls.CarveRightLeavesLeftWall | Walls.CarveIntendedSymmetric |

The generator in this model keeps the code as written. Its wall invariant `Maze.SharedWallsConsistent` is therefore one-sided for horizontal walls, and `Scene.GameScene.LeftMoveReversible` has no rightward counterpart. `Walls.CarveIntended` is the corrected carve: it opens both facing flags in all four directions.
