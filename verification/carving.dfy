/** Carving rooms and tunnels out of the grid: `create_room`,
    `create_h_tunnel` and `create_v_tunnel`. */
module Carving {
  import opened Common
  import opened Tiles
  import opened Rects

  /** Sets (x, y) to `Empty` for lo <= x <= hi, walking x upward. */
  function CarveRow(m: Grid, lo: int, hi: int, y: int): (r: Grid)
    requires ValidMap(m)
    requires lo <= hi ==> InBounds(lo, y) && InBounds(hi, y)
    ensures ValidMap(r)
    ensures forall i, j | InBounds(i, j) ::
      r[i][j] == if lo <= i <= hi && j == y then Empty else m[i][j]
    decreases hi - lo
  {
    if lo > hi then m
    else CarveRow(SetTile(m, lo, y, Empty), lo + 1, hi, y)
  }

  /** Sets (x, y) to `Empty` for lo <= y <= hi, walking y upward. */
  function CarveColumn(m: Grid, x: int, lo: int, hi: int): (r: Grid)
    requires ValidMap(m)
    requires lo <= hi ==> InBounds(x, lo) && InBounds(x, hi)
    ensures ValidMap(r)
    ensures forall i, j | InBounds(i, j) ::
      r[i][j] == if i == x && lo <= j <= hi then Empty else m[i][j]
    decreases hi - lo
  {
    if lo > hi then m
    else CarveColumn(SetTile(m, x, lo, Empty), x, lo + 1, hi)
  }

  /** The nested loops of `create_room`: one column at a time, x outermost. */
  function CarveBlock(m: Grid, xlo: int, xhi: int, ylo: int, yhi: int): (r: Grid)
    requires ValidMap(m)
    requires xlo <= xhi && ylo <= yhi ==> InBounds(xlo, ylo) && InBounds(xhi, yhi)
    ensures ValidMap(r)
    ensures forall i, j | InBounds(i, j) ::
      r[i][j] == if xlo <= i <= xhi && ylo <= j <= yhi then Empty else m[i][j]
    decreases xhi - xlo
  {
    if xlo > xhi then m
    else CarveBlock(CarveColumn(m, xlo, ylo, yhi), xlo + 1, xhi, ylo, yhi)
  }

  /** `create_h_tunnel(x1, x2, y)`: both end cells must lie inside the map. */
  function CreateHTunnel(x1: int, x2: int, y: int, m: Grid): (r: Grid)
    requires ValidMap(m)
    requires InBounds(x1, y) && InBounds(x2, y)
    ensures ValidMap(r)
    ensures forall i, j | InBounds(i, j) ::
      r[i][j] == if Min(x1, x2) <= i <= Max(x1, x2) && j == y then Empty else m[i][j]
  {
    CarveRow(m, Min(x1, x2), Max(x1, x2), y)
  }

  /** `create_v_tunnel(y1, y2, x)`: both end cells must lie inside the map. */
  function CreateVTunnel(y1: int, y2: int, x: int, m: Grid): (r: Grid)
    requires ValidMap(m)
    requires InBounds(x, y1) && InBounds(x, y2)
    ensures ValidMap(r)
    ensures forall i, j | InBounds(i, j) ::
      r[i][j] == if i == x && Min(y1, y2) <= j <= Max(y1, y2) then Empty else m[i][j]
  {
    CarveColumn(m, x, Min(y1, y2), Max(y1, y2))
  }

  /** The cells `create_room` indexes lie inside the map: the strict interior
      (when it is not empty) and the far corner (x2, y2). */
  predicate RoomFits(room: Rect) {
    && InBounds(room.x2, room.y2)
    && (room.x1 + 1 < room.x2 && room.y1 + 1 < room.y2 ==> room.x1 >= -1 && room.y1 >= -1)
  }

  /** `create_room`: the strict interior becomes `Empty`; the far corner
      (x2, y2) becomes a walkable but opaque tile carrying `glyph`, whose
      `explored` flag is false because `Tile::new` copies `blocked` into it. */
  function CreateRoom(room: Rect, m: Grid, glyph: char): (r: Grid)
    requires ValidMap(m) && RoomFits(room)
    ensures ValidMap(r)
    ensures forall i, j | InBounds(i, j) ::
      r[i][j] ==
        if i == room.x2 && j == room.y2 then Tile(false, false, true, glyph)
        else if room.x1 < i < room.x2 && room.y1 < j < room.y2 then Empty
        else m[i][j]
  {
    var carved := CarveBlock(m, room.x1 + 1, room.x2 - 1, room.y1 + 1, room.y2 - 1);
    SetTile(carved, room.x2, room.y2, NewTile(false, false, true, glyph))
  }

  /** None of the carving operations ever turns a walkable cell into a wall. */
  lemma CarvingAddsNoWalls(m: Grid, room: Rect, glyph: char, a: int, b: int, c: int)
    requires ValidMap(m)
    ensures RoomFits(room) ==> NoNewWalls(m, CreateRoom(room, m, glyph))
    ensures InBounds(a, c) && InBounds(b, c) ==> NoNewWalls(m, CreateHTunnel(a, b, c, m))
    ensures InBounds(c, a) && InBounds(c, b) ==> NoNewWalls(m, CreateVTunnel(a, b, c, m))
  {
  }
}
