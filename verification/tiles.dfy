/** Tiles and the wall-filled grid they live in. The grid is indexed `[x][y]`. */
module Tiles {
  import opened Common

  /** One map cell. */
  datatype Tile = Tile(blocked: bool, explored: bool, blockSight: bool, glyph: char)

  type Grid = seq<seq<Tile>>

  /** `Tile::empty()`: walkable and transparent. */
  const Empty: Tile := Tile(false, false, false, ' ')

  /** `Tile::wall()`: impassable and opaque. */
  const Wall: Tile := Tile(true, false, true, ' ')

  /** `Tile::new`. The constructor stores its `blocked` argument in `explored`
      and ignores its own `explored` argument. */
  function NewTile(blocked: bool, explored: bool, blockSight: bool, glyph: char): (t: Tile)
    ensures t.blocked == blocked && t.blockSight == blockSight && t.glyph == glyph
    ensures t.explored == blocked
  {
    Tile(blocked, blocked, blockSight, glyph)
  }

  /** `Tile::new` never looks at its `explored` argument. */
  lemma NewTileIgnoresExplored(blocked: bool, e1: bool, e2: bool, blockSight: bool, glyph: char)
    ensures NewTile(blocked, e1, blockSight, glyph) == NewTile(blocked, e2, blockSight, glyph)
    ensures NewTile(blocked, e1, blockSight, glyph).explored == blocked
  {
  }

  predicate InBounds(x: int, y: int) {
    0 <= x < MAP_WIDTH && 0 <= y < MAP_HEIGHT
  }

  /** A grid of MAP_WIDTH columns of MAP_HEIGHT tiles each. */
  predicate ValidMap(m: Grid) {
    |m| == MAP_WIDTH && forall x | 0 <= x < MAP_WIDTH :: |m[x]| == MAP_HEIGHT
  }

  /** A cell inside the map whose terrain does not block movement. */
  predicate Floor(m: Grid, x: int, y: int)
    requires ValidMap(m)
  {
    InBounds(x, y) && !m[x][y].blocked
  }

  /** Every cell walkable in `m` is still walkable in `r`. */
  ghost predicate NoNewWalls(m: Grid, r: Grid)
    requires ValidMap(m) && ValidMap(r)
  {
    forall x, y | Floor(m, x, y) :: Floor(r, x, y)
  }

  lemma NoNewWallsTransitive(a: Grid, b: Grid, c: Grid)
    requires ValidMap(a) && ValidMap(b) && ValidMap(c)
    requires NoNewWalls(a, b) && NoNewWalls(b, c)
    ensures NoNewWalls(a, c)
  {
  }

  /** The map `make_map` starts from: walls everywhere. */
  function WallMap(): (m: Grid)
    ensures ValidMap(m)
    ensures forall x, y | InBounds(x, y) :: m[x][y] == Wall
  {
    seq(MAP_WIDTH, _ => seq(MAP_HEIGHT, _ => Wall))
  }

  /** `map[x][y] = t`. */
  function SetTile(m: Grid, x: int, y: int, t: Tile): (r: Grid)
    requires ValidMap(m) && InBounds(x, y)
    ensures ValidMap(r)
    ensures forall i, j | InBounds(i, j) :: r[i][j] == if i == x && j == y then t else m[i][j]
  {
    m[x := m[x][y := t]]
  }
}
