/** The four wall flags of a tile, the floor texture name they select, and the
    wall update `createBoard` makes when it carves a passage. */
module Walls {
  import opened Geometry

  /** `hasTopWall`, `hasRightWall`, `hasBottomWall`, `hasLeftWall`. */
  datatype Walls = Walls(top: bool, right: bool, bottom: bool, left: bool)

  /** A new or reset tile has every wall. */
  const AllWalls := Walls(true, true, true, true)

  /** Whether the wall on side `s` is present. */
  function Has(w: Walls, s: Side): bool
  {
    match s
    case Top => w.top
    case Right => w.right
    case Bottom => w.bottom
    case Left => w.left
  }

  /** `w` with the flag on side `s` set to `present`. */
  function SetSide(w: Walls, s: Side, present: bool): (r: Walls)
    ensures Has(r, s) == present
    ensures forall t :: t != s ==> Has(r, t) == Has(w, t)
  {
    match s
    case Top => w.(top := present)
    case Right => w.(right := present)
    case Bottom => w.(bottom := present)
    case Left => w.(left := present)
  }

  // ---------------------------------------------------------------------------
  // Floor texture names (drawFloorSprite)

  function Bit(b: bool): char
  {
    if b then '1' else '0'
  }

  /** The texture `drawFloorSprite` selects: "Tile_" then one character per wall in
      the order top, right, bottom, left, '1' when the wall is present. */
  function TextureName(w: Walls): (r: string)
    ensures |r| == 9 && r[..5] == "Tile_" && forall i :: 5 <= i < 9 ==> r[i] in "01"
  {
    "Tile_" + [Bit(w.top), Bit(w.right), Bit(w.bottom), Bit(w.left)]
  }

  /** Reads the wall flags back from a texture name, if it is one. */
  function WallsOfTexture(name: string): (r: Option<Walls>)
    ensures r.Some? ==> |name| == 9
  {
    if |name| == 9 && name[..5] == "Tile_" && forall i :: 5 <= i < 9 ==> name[i] in "01" then
      Some(Walls(name[5] == '1', name[6] == '1', name[7] == '1', name[8] == '1'))
    else
      None
  }

  /** Every texture name is nine characters long and reads back as the flags it encodes. */
  lemma TextureRoundTrip(w: Walls)
    ensures |TextureName(w)| == 9
    ensures WallsOfTexture(TextureName(w)) == Some(w)
  {
    var s := TextureName(w);
    assert s[..5] == "Tile_";
    assert forall i :: 5 <= i < 9 ==> s[i] in "01";
  }

  /** Only texture names read back as wall flags. */
  lemma TextureOnlyRoundTrip(name: string, w: Walls)
    requires WallsOfTexture(name) == Some(w)
    ensures TextureName(w) == name
  {
    assert name[5] in "01" && name[6] in "01" && name[7] in "01" && name[8] in "01";
    assert name == name[..5] + [name[5], name[6], name[7], name[8]];
  }

  /** Distinct wall configurations select distinct textures: the 16 names are all different. */
  lemma TextureNameInjective(v: Walls, w: Walls)
    requires TextureName(v) == TextureName(w)
    ensures v == w
  {
    TextureRoundTrip(v);
    TextureRoundTrip(w);
  }

  /** A tile with every wall shows "Tile_1111", the image a tile starts with. */
  lemma AllWallsTexture()
    ensures TextureName(AllWalls) == "Tile_1111"
  {
  }

  // ---------------------------------------------------------------------------
  // Carving a passage (createBoard)

  /** The wall flags of the current tile and of the chosen neighbour after
      `createBoard` removes the walls between them, exactly as the game does it:
      the current tile only loses walls, at least one, and the neighbour gains
      none except its left one. The branch is chosen by the signs of `current - next`. When the neighbour is
      to the right (x < 0), the neighbour's left wall is set to `true`, so the
      passage stays closed from the neighbour's side. */
  function Carve(current: Point, next: Point, cw: Walls, nw: Walls): (r: (Walls, Walls))
    ensures (r.0.top ==> cw.top) && (r.0.right ==> cw.right) && (r.0.bottom ==> cw.bottom) && (r.0.left ==> cw.left)
    ensures !(r.0.top && r.0.right && r.0.bottom && r.0.left)
    ensures (r.1.top ==> nw.top) && (r.1.right ==> nw.right) && (r.1.bottom ==> nw.bottom)
  {
    var x := current.x - next.x;
    var y := current.y - next.y;
    if x > 0 then (cw.(left := false), nw.(right := false))
    else if x < 0 then (cw.(right := false), nw.(left := true))
    else if y < 0 then (cw.(top := false), nw.(bottom := false))
    else (cw.(bottom := false), nw.(top := false))
  }

  /** Carving towards a neighbour opens the current tile's side facing it and
      touches no other side of the current tile; of the neighbour, only the side
      facing back can change. */
  lemma {:induction false} CarveTouchesOnlyFacingSides(current: Point, s: Side, cw: Walls, nw: Walls)
    ensures Carve(current, Neighbour(current, s), cw, nw).0 == SetSide(cw, s, false)
    ensures forall t :: t != Opposite(s) ==> Has(Carve(current, Neighbour(current, s), cw, nw).1, t) == Has(nw, t)
  {
    var next := Neighbour(current, s);
    match s
    case Top => assert current.x - next.x == 0 && current.y - next.y < 0;
    case Right => assert current.x - next.x < 0;
    case Bottom => assert current.x - next.x == 0 && current.y - next.y > 0;
    case Left => assert current.x - next.x > 0;
  }

  /** Going left, up or down, both facing flags end up open. */
  lemma {:induction false} CarveSymmetricExceptRight(current: Point, s: Side, cw: Walls, nw: Walls)
    requires s != Right
    ensures var (c, n) := Carve(current, Neighbour(current, s), cw, nw);
      !Has(c, s) && !Has(n, Opposite(s))
  {
    var next := Neighbour(current, s);
    match s
    case Top => assert current.x - next.x == 0 && current.y - next.y < 0;
    case Bottom => assert current.x - next.x == 0 && current.y - next.y > 0;
    case Left => assert current.x - next.x > 0;
  }

  /** Going right, the current tile's right wall opens but the neighbour's left wall
      is present afterwards, whatever it was before. */
  lemma {:induction false} CarveRightLeavesLeftWall(current: Point, cw: Walls, nw: Walls)
    ensures var (c, n) := Carve(current, Neighbour(current, Right), cw, nw);
      !c.right && n.left && n == nw.(left := true)
  {
    assert current.x - Neighbour(current, Right).x < 0;
  }

  /** The carve the comment in createBoard promises: the walls between the two
      tiles are removed on both sides. */
  function CarveIntended(current: Point, next: Point, cw: Walls, nw: Walls): (r: (Walls, Walls))
    ensures exists s :: r == (SetSide(cw, s, false), SetSide(nw, Opposite(s), false))
  {
    var x := current.x - next.x;
    var y := current.y - next.y;
    if x > 0 then
      assert (cw.(left := false), nw.(right := false)) == (SetSide(cw, Left, false), SetSide(nw, Opposite(Left), false));
      (cw.(left := false), nw.(right := false))
    else if x < 0 then
      assert (cw.(right := false), nw.(left := false)) == (SetSide(cw, Right, false), SetSide(nw, Opposite(Right), false));
      (cw.(right := false), nw.(left := false))
    else if y < 0 then
      assert (cw.(top := false), nw.(bottom := false)) == (SetSide(cw, Top, false), SetSide(nw, Opposite(Top), false));
      (cw.(top := false), nw.(bottom := false))
    else
      assert (cw.(bottom := false), nw.(top := false)) == (SetSide(cw, Bottom, false), SetSide(nw, Opposite(Bottom), false));
      (cw.(bottom := false), nw.(top := false))
  }

  /** The intended carve opens both facing flags for every direction and changes
      nothing else. */
  lemma {:induction false} CarveIntendedSymmetric(current: Point, s: Side, cw: Walls, nw: Walls)
    ensures CarveIntended(current, Neighbour(current, s), cw, nw)
      == (SetSide(cw, s, false), SetSide(nw, Opposite(s), false))
  {
    var next := Neighbour(current, s);
    match s
    case Top => assert current.x - next.x == 0 && current.y - next.y < 0;
    case Right => assert current.x - next.x < 0;
    case Bottom => assert current.x - next.x == 0 && current.y - next.y > 0;
    case Left => assert current.x - next.x > 0;
  }
}
