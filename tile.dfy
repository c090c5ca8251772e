/** One cell of the maze: its fixed position and name, the flags the generator and
    the game update in place, and its floor texture. Rendering (shape nodes,
    colours, sizes) is not modelled. */
module Tiles {
  import opened Geometry
  import opened Walls
  import opened Names

  /** The logical state of a tile: visited, current, start and end flags and the walls. */
  datatype Flags = Flags(visited: bool, current: bool, start: bool, end: bool, walls: Walls)

  /** The state a tile is built with and the state `resetTile` returns it to. */
  const InitialFlags := Flags(false, false, false, false, AllWalls)

  class Tile {
    const positionOnBoard: Point
    /** Set from the position when the tile is built. */
    const name: string := "Tile_" + IntToString(positionOnBoard.x) + "_" + IntToString(positionOnBoard.y)

    var hasBeenVisited: bool
    var isCurrent: bool
    var isStartingTile: bool
    var isEndTile: bool

    var hasTopWall: bool
    var hasBottomWall: bool
    var hasLeftWall: bool
    var hasRightWall: bool

    /** The name of the image the floor sprite shows. */
    var floorTexture: string

    function WallFlags(): Walls
      reads this
    {
      Walls(hasTopWall, hasRightWall, hasBottomWall, hasLeftWall)
    }

    function State(): Flags
      reads this
    {
      Flags(hasBeenVisited, isCurrent, isStartingTile, isEndTile, WallFlags())
    }

    /** A new tile has every wall, no flag set, the name "Tile_x_y" and the
        texture "Tile_1111", which is the texture its walls select. */
    constructor (position: Point)
      ensures positionOnBoard == position && name == TileName(position)
      ensures State() == InitialFlags
      ensures floorTexture == TextureName(WallFlags())
    {
      positionOnBoard := position;
      hasBeenVisited, isCurrent, isStartingTile, isEndTile := false, false, false, false;
      hasTopWall, hasBottomWall, hasLeftWall, hasRightWall := true, true, true, true;
      floorTexture := "Tile_1111";
      new;
      AllWallsTexture();
    }

    /** Back to the state of a new tile, whatever came before. */
    method ResetTile()
      modifies this
      ensures State() == InitialFlags
      ensures floorTexture == old(floorTexture)
    {
      hasBeenVisited := false;
      isStartingTile := false;
      isCurrent := false;
      isEndTile := false;
      hasBottomWall := true;
      hasTopWall := true;
      hasLeftWall := true;
      hasRightWall := true;
    }

    /** Marks the tile visited and no longer current; walls, start and end flags
        are kept. Visiting twice is the same as visiting once. */
    method Visit()
      modifies this
      ensures State() == old(State()).(visited := true, current := false)
      ensures old(hasBeenVisited && !isCurrent) ==> State() == old(State())
      ensures floorTexture == old(floorTexture)
    {
      hasBeenVisited := true;
      isCurrent := false;
    }

    /** Marks the tile current; nothing else changes. */
    method Current()
      modifies this
      ensures State() == old(State()).(current := true)
      ensures floorTexture == old(floorTexture)
    {
      isCurrent := true;
    }

    /** Selects the floor texture that matches the tile's walls. */
    method DrawFloorSprite()
      modifies this
      ensures floorTexture == TextureName(WallFlags())
      ensures WallsOfTexture(floorTexture) == Some(WallFlags())
      ensures State() == old(State())
    {
      var s := "Tile_";
      if hasTopWall {
        s := s + "1";
      } else {
        s := s + "0";
      }
      assert s == "Tile_" + [Bit(hasTopWall)];
      if hasRightWall {
        s := s + "1";
      } else {
        s := s + "0";
      }
      assert s == "Tile_" + [Bit(hasTopWall), Bit(hasRightWall)];
      if hasBottomWall {
        s := s + "1";
      } else {
        s := s + "0";
      }
      assert s == "Tile_" + [Bit(hasTopWall), Bit(hasRightWall), Bit(hasBottomWall)];
      if hasLeftWall {
        s := s + "1";
      } else {
        s := s + "0";
      }
      floorTexture := s;
      TextureRoundTrip(WallFlags());
    }
  }
}
