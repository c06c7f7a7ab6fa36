/** Dungeon generation: `place_objects` and `make_map`. Rooms are sampled
    and carved one after the other, each accepted room is populated and the
    player is put in the first one; the rooms are then sorted by centre and
    consecutive rooms are joined by L-shaped tunnels. */
module Dungeon {
  import opened Common
  import opened Tiles
  import opened Rects
  import opened Carving
  import opened Draws
  import opened Objects
  import opened Arena
  import opened Paths

  /** A room as the sampling in `make_map` produces it: each side between
      ROOM_MIN_SIZE and ROOM_MAX_SIZE long, entirely inside the map, with a
      fresh connection counter. */
  predicate WellPlaced(r: Rect) {
    && ROOM_MIN_SIZE <= r.x2 - r.x1 <= ROOM_MAX_SIZE
    && ROOM_MIN_SIZE <= r.y2 - r.y1 <= ROOM_MAX_SIZE
    && 0 <= r.x1 && r.x2 < MAP_WIDTH
    && 0 <= r.y1 && r.y2 < MAP_HEIGHT
    && r.connections == 0
  }

  predicate AllWellPlaced(rs: seq<Rect>) {
    forall k | 0 <= k < |rs| :: WellPlaced(rs[k])
  }

  /** The centre of a well-placed room lies strictly inside it. */
  predicate Interior(r: Rect, x: int, y: int) {
    r.x1 < x < r.x2 && r.y1 < y < r.y2
  }

  lemma CenterIsInterior(r: Rect)
    requires WellPlaced(r)
    ensures Interior(r, Center(r).0, Center(r).1) && InBounds(Center(r).0, Center(r).1)
  {
  }

  /** The four draws of one iteration of the room loop: width, height, then
      the position, chosen so that the far corner stays inside the map. */
  function SampleRoom(ds: Stream): (r: (Rect, Stream))
    ensures WellPlaced(r.0)
  {
    var (w, ds1) := GenRange(ds, ROOM_MIN_SIZE, ROOM_MAX_SIZE + 1);
    var (h, ds2) := GenRange(ds1, ROOM_MIN_SIZE, ROOM_MAX_SIZE + 1);
    var (x, ds3) := GenRange(ds2, 0, MAP_WIDTH - w);
    var (y, ds4) := GenRange(ds3, 0, MAP_HEIGHT - h);
    (NewRect(x, y, w, h), ds4)
  }

  /** Conversely, every well-placed room is sampled by some draws. */
  lemma SampleRoomReachesEveryRoom(r: Rect)
    requires WellPlaced(r)
    ensures SampleRoom([r.x2 - r.x1 - ROOM_MIN_SIZE, r.y2 - r.y1 - ROOM_MIN_SIZE, r.x1, r.y1]).0 == r
  {
    var (w, h) := (r.x2 - r.x1, r.y2 - r.y1);
    var ds := [w - ROOM_MIN_SIZE, h - ROOM_MIN_SIZE, r.x1, r.y1];
    SmallModulus(w - ROOM_MIN_SIZE, ROOM_MAX_SIZE + 1 - ROOM_MIN_SIZE);
    SmallModulus(h - ROOM_MIN_SIZE, ROOM_MAX_SIZE + 1 - ROOM_MIN_SIZE);
    SmallModulus(r.x1, MAP_WIDTH - w);
    SmallModulus(r.y1, MAP_HEIGHT - h);
    assert GenRange(ds, ROOM_MIN_SIZE, ROOM_MAX_SIZE + 1) == (w, ds[1..]);
    assert GenRange(ds[1..], ROOM_MIN_SIZE, ROOM_MAX_SIZE + 1) == (h, ds[2..]);
    assert GenRange(ds[2..], 0, MAP_WIDTH - w) == (r.x1, ds[3..]);
    assert GenRange(ds[3..], 0, MAP_HEIGHT - h) == (r.y1, ds[4..]);
  }

  lemma SmallModulus(a: int, b: int)
    requires 0 <= a < b
    ensures a % b == a
  {
  }

  /** `rooms.iter().any(|other| new_room.intersects_with(other))`. */
  function AnyIntersects(room: Rect, rooms: seq<Rect>): (b: bool)
    ensures b <==> exists k | 0 <= k < |rooms| :: IntersectsWith(room, rooms[k])
  {
    if |rooms| == 0 then false
    else if IntersectsWith(room, rooms[0]) then true
    else
      var rest := AnyIntersects(room, rooms[1..]);
      assert forall k | 1 <= k < |rooms| :: rooms[k] == rooms[1..][k - 1];
      rest
  }

  /** The orc template of `place_objects`. */
  predicate IsOrc(o: Object) {
    o.glyph == 'o' && o.name == "Orc" && o.color == DesaturatedGreen
    && o.fighter == Some(Fighter(10, 10, 0, 3, Monster))
  }

  /** The troll template of `place_objects`. */
  predicate IsTroll(o: Object) {
    o.glyph == 'T' && o.name == "Troll" && o.color == DarkerGreen
    && o.fighter == Some(Fighter(15, 15, 1, 4, Monster))
  }

  /** A freshly placed monster: an orc or a troll, alive, blocking, with an AI. */
  predicate IsMonster(o: Object) {
    (IsOrc(o) || IsTroll(o)) && o.alive && o.blocks && o.ai == Some(BasicAi)
  }

  /** One monster of `place_objects`: a position strictly inside the room,
      then the 80% test choosing an orc over a troll. */
  function PlaceMonster(room: Rect, ds: Stream): (r: (Object, Stream))
    requires room.x1 + 1 < room.x2 && room.y1 + 1 < room.y2
    ensures IsMonster(r.0) && Interior(room, r.0.x, r.0.y)
  {
    var (x, ds1) := GenRange(ds, room.x1 + 1, room.x2);
    var (y, ds2) := GenRange(ds1, room.y1 + 1, room.y2);
    var (orc, ds3) := Chance80(ds2);
    var monster :=
      if orc then
        NewObject(x, y, 'o', "Orc", DesaturatedGreen, true).(
          fighter := Some(Fighter(10, 10, 0, 3, Monster)), ai := Some(BasicAi))
      else
        NewObject(x, y, 'T', "Troll", DarkerGreen, true).(
          fighter := Some(Fighter(15, 15, 1, 4, Monster)), ai := Some(BasicAi));
    (monster.(alive := true), ds3)
  }

  /** Every interior cell can receive an orc and a troll. */
  lemma PlaceMonsterReachesEveryMonster(room: Rect, x: int, y: int)
    requires room.x1 + 1 < room.x2 && room.y1 + 1 < room.y2 && Interior(room, x, y)
    ensures var o := PlaceMonster(room, [x - room.x1 - 1, y - room.y1 - 1, 0]).0;
      IsOrc(o) && o.x == x && o.y == y
    ensures var o := PlaceMonster(room, [x - room.x1 - 1, y - room.y1 - 1, 9]).0;
      IsTroll(o) && o.x == x && o.y == y
  {
    PlaceMonsterAt(room, x, y, 0);
    PlaceMonsterAt(room, x, y, 9);
  }

  /** The draws (x - x1 - 1, y - y1 - 1, c) put the monster at (x, y), and
      the third draw alone decides its kind. */
  lemma PlaceMonsterAt(room: Rect, x: int, y: int, c: nat)
    requires room.x1 + 1 < room.x2 && room.y1 + 1 < room.y2 && Interior(room, x, y)
    ensures var o := PlaceMonster(room, [x - room.x1 - 1, y - room.y1 - 1, c]).0;
      o.x == x && o.y == y && (c % 10 < 8 ==> IsOrc(o)) && (c % 10 >= 8 ==> IsTroll(o))
  {
    var ds: Stream := [x - room.x1 - 1, y - room.y1 - 1, c];
    assert GenRange(ds, room.x1 + 1, room.x2) == (x, ds[1..]);
    assert GenRange(ds[1..], room.y1 + 1, room.y2) == (y, ds[2..]);
    assert Chance80(ds[2..]).0 == (c % 10 < 8);
  }

  /** The loop `for _ in 0..num_monsters` appending monsters. */
  function PlaceMonsters(room: Rect, objects: seq<Object>, n: nat, ds: Stream): (r: (seq<Object>, Stream))
    requires room.x1 + 1 < room.x2 && room.y1 + 1 < room.y2
    ensures |r.0| == |objects| + n && r.0[..|objects|] == objects
    ensures forall k | |objects| <= k < |r.0| :: IsMonster(r.0[k]) && Interior(room, r.0[k].x, r.0[k].y)
    decreases n
  {
    if n == 0 then (objects, ds)
    else
      var (monster, ds1) := PlaceMonster(room, ds);
      PlaceMonsters(room, objects + [monster], n - 1, ds1)
  }

  /** `place_objects`: up to MAX_ROOMS_MONSTERS monsters, appended after the
      existing objects, each strictly inside the room. The room must have an
      interior, as the generator's ranges demand; the item code is disabled
      in the game and the map argument is unused. */
  function PlaceObjects(room: Rect, objects: seq<Object>, ds: Stream): (r: (seq<Object>, Stream))
    requires room.x1 + 1 < room.x2 && room.y1 + 1 < room.y2
    ensures |objects| <= |r.0| <= |objects| + MAX_ROOMS_MONSTERS
    ensures r.0[..|objects|] == objects
    ensures forall k | |objects| <= k < |r.0| :: IsMonster(r.0[k]) && Interior(room, r.0[k].x, r.0[k].y)
  {
    var (n, ds1) := GenRange(ds, 0, MAX_ROOMS_MONSTERS + 1);
    PlaceMonsters(room, objects, n, ds1)
  }

  /** Every count from 0 to MAX_ROOMS_MONSTERS occurs. */
  lemma PlaceObjectsReachesEveryCount(room: Rect, objects: seq<Object>, n: nat)
    requires room.x1 + 1 < room.x2 && room.y1 + 1 < room.y2
    requires n <= MAX_ROOMS_MONSTERS
    ensures |PlaceObjects(room, objects, [n]).0| == |objects| + n
  {
  }

  /** Monsters are placed without looking at `is_blocked`, so two of them
      can end up on the same cell, both blocking. */
  lemma PlaceObjectsMayStack(room: Rect)
    requires room.x1 + 1 < room.x2 && room.y1 + 1 < room.y2
    ensures !NoStacking(PlaceObjects(room, [], [2, 0, 0, 0, 0, 0, 0]).0)
  {
    var zeros: Stream := [0, 0, 0, 0, 0, 0];
    assert GenRange([2] + zeros, 0, MAX_ROOMS_MONSTERS + 1) == (2, zeros);
    var first := PlaceMonster(room, zeros);
    PlaceMonsterAtCorner(room, zeros);
    PlaceMonsterAtCorner(room, first.1);
    var second := PlaceMonster(room, first.1);
    var placed := PlaceObjects(room, [], [2] + zeros).0;
    assert placed == PlaceMonsters(room, [first.0], 1, first.1).0;
    assert placed == [first.0, second.0];
    assert !(placed[0].blocks && placed[1].blocks ==> (placed[0].x, placed[0].y) != (placed[1].x, placed[1].y));
  }

  /** Draws that are all zero put the monster in the room's first interior
      cell. */
  lemma PlaceMonsterAtCorner(room: Rect, ds: Stream)
    requires room.x1 + 1 < room.x2 && room.y1 + 1 < room.y2
    requires forall k | 0 <= k < |ds| :: ds[k] == 0
    ensures var o := PlaceMonster(room, ds).0; o.x == room.x1 + 1 && o.y == room.y1 + 1
  {
    var (x, ds1) := GenRange(ds, room.x1 + 1, room.x2);
    assert x == room.x1 + 1 && forall k | 0 <= k < |ds1| :: ds1[k] == 0;
  }

  /** `(i as u8) as char`. */
  function Glyph(i: nat): (c: char)
    ensures c as int == i % 256
  {
    (i % 256) as char
  }

  /** Each of the MAX_ROOMS room indices gets its own corner marker. */
  lemma GlyphsDistinct()
    ensures forall i, j | 0 <= i < j < MAX_ROOMS :: Glyph(i) != Glyph(j)
  {
    forall i, j | 0 <= i < j < MAX_ROOMS
      ensures Glyph(i) != Glyph(j)
    {
      assert Glyph(i) as int == i && Glyph(j) as int == j;
    }
  }

  /** The state threaded through the room loop. */
  datatype Gen = Gen(grid: Grid, rooms: seq<Rect>, objects: seq<Object>, draws: Stream)

  /** Accepting `room`: carve it, populate it, move the player to its centre
      if it is the first room, and append it to the accepted rooms. */
  function AcceptRoom(g: Gen, room: Rect, ds: Stream, i: nat): (r: Gen)
    requires ValidMap(g.grid) && |g.objects| > 0 && WellPlaced(room)
    ensures ValidMap(r.grid) && NoNewWalls(g.grid, r.grid)
    ensures r.rooms == g.rooms + [room]
    ensures forall x, y | Interior(room, x, y) :: Floor(r.grid, x, y)
    ensures |g.objects| <= |r.objects| <= |g.objects| + MAX_ROOMS_MONSTERS
    ensures forall k | 0 < k < |g.objects| :: r.objects[k] == g.objects[k]
    ensures r.objects[PLAYER] ==
      if |g.rooms| == 0 then SetPos(g.objects[PLAYER], Center(room).0, Center(room).1)
      else g.objects[PLAYER]
    ensures forall k | |g.objects| <= k < |r.objects| ::
      IsMonster(r.objects[k]) && Interior(room, r.objects[k].x, r.objects[k].y)
  {
    var carved := CreateRoom(room, g.grid, Glyph(i));
    var placed := PlaceObjects(room, g.objects, ds);
    var c := Center(room);
    var moved := if |g.rooms| == 0 then placed.0[PLAYER := SetPos(placed.0[PLAYER], c.0, c.1)] else placed.0;
    Gen(carved, g.rooms + [room], moved, placed.1)
  }

  /** One iteration of the room loop: sample a room and accept it unless it
      overlaps an accepted one. */
  function RoomStep(g: Gen, i: nat): (r: Gen)
    requires ValidMap(g.grid) && |g.objects| > 0
    ensures ValidMap(r.grid) && NoNewWalls(g.grid, r.grid)
    ensures g.rooms <= r.rooms && |r.rooms| <= |g.rooms| + 1
    ensures |g.rooms| == 0 ==> |r.rooms| == 1
    ensures |r.objects| >= |g.objects|
    ensures forall k | 0 < k < |g.objects| :: r.objects[k] == g.objects[k]
    // the sampled room is kept exactly when it overlaps no accepted room
    ensures var s := SampleRoom(g.draws).0;
      r.rooms == if AnyIntersects(s, g.rooms) then g.rooms else g.rooms + [s]
  {
    var sample := SampleRoom(g.draws);
    if AnyIntersects(sample.0, g.rooms) then g.(draws := sample.1)
    else AcceptRoom(g, sample.0, sample.1, i)
  }

  /** The room loop from iteration `i` to MAX_ROOMS - 1. `objects0`, the
      arena the loop started from, serves only the invariant. */
  function RoomsFrom(ghost objects0: seq<Object>, g: Gen, i: nat): (r: Gen)
    requires ValidMap(g.grid) && |g.objects| > 0
    requires i <= MAX_ROOMS
    ensures ValidMap(r.grid)
    ensures g.rooms <= r.rooms && |r.rooms| <= |g.rooms| + (MAX_ROOMS - i)
    ensures |g.rooms| == 0 && i < MAX_ROOMS ==> |r.rooms| >= 1
    ensures |r.objects| >= |g.objects|
    ensures |objects0| > 0 && GenInv(objects0, g) ==> GenInv(objects0, r)
    decreases MAX_ROOMS - i
  {
    if i == MAX_ROOMS then g
    else
      var next := RoomStep(g, i);
      RoomStepKeepsInv(objects0, g, i);
      RoomsFrom(objects0, next, i + 1)
  }

  /** What the room loop keeps true, relative to the objects it started with:
      accepted rooms are well placed, pairwise disjoint and carved; the player
      alone has moved, to the centre of the first accepted room; the other
      original objects are untouched; everything added is a monster standing
      on floor, at most MAX_ROOMS_MONSTERS per room. */
  ghost predicate GenInv(objects0: seq<Object>, g: Gen)
    requires |objects0| > 0
  {
    RoomsInv(g) && ObjectsInv(objects0, g)
  }

  /** The rooms half of `GenInv`. */
  ghost predicate RoomsInv(g: Gen) {
    && ValidMap(g.grid)
    && AllWellPlaced(g.rooms)
    && PairwiseDisjoint(g.rooms)
    && (forall k, x, y | 0 <= k < |g.rooms| && Interior(g.rooms[k], x, y) :: Floor(g.grid, x, y))
  }

  /** The objects half of `GenInv`. */
  ghost predicate ObjectsInv(objects0: seq<Object>, g: Gen)
    requires |objects0| > 0 && ValidMap(g.grid)
  {
    && |objects0| <= |g.objects| <= |objects0| + MAX_ROOMS_MONSTERS * |g.rooms|
    && (forall k | 1 <= k < |objects0| :: g.objects[k] == objects0[k])
    && g.objects[PLAYER] ==
         (if |g.rooms| == 0 then objects0[PLAYER]
          else SetPos(objects0[PLAYER], Center(g.rooms[0]).0, Center(g.rooms[0]).1))
    && (|g.rooms| > 0 ==> Floor(g.grid, g.objects[PLAYER].x, g.objects[PLAYER].y))
    && (forall k | |objects0| <= k < |g.objects| ::
          IsMonster(g.objects[k]) && Floor(g.grid, g.objects[k].x, g.objects[k].y))
  }

  /** Accepting a well-placed room that overlaps no accepted one, once it is
      carved, keeps the accepted rooms well placed, disjoint and carved. */
  lemma AcceptedRoomKeepsRooms(rooms: seq<Rect>, room: Rect, m: Grid, carved: Grid)
    requires ValidMap(m) && ValidMap(carved) && NoNewWalls(m, carved)
    requires AllWellPlaced(rooms) && PairwiseDisjoint(rooms)
    requires forall k, x, y | 0 <= k < |rooms| && Interior(rooms[k], x, y) :: Floor(m, x, y)
    requires WellPlaced(room) && !AnyIntersects(room, rooms)
    requires forall x, y | Interior(room, x, y) :: Floor(carved, x, y)
    ensures AllWellPlaced(rooms + [room]) && PairwiseDisjoint(rooms + [room])
    ensures forall k, x, y | 0 <= k < |rooms + [room]| && Interior((rooms + [room])[k], x, y) :: Floor(carved, x, y)
  {
    var rs := rooms + [room];
    forall k | 0 <= k < |rs|
      ensures WellPlaced(rs[k])
    {
      if k < |rooms| { assert rs[k] == rooms[k]; }
    }
    forall a, b | 0 <= a < b < |rs|
      ensures !IntersectsWith(rs[a], rs[b])
    {
      if b == |rooms| {
        IntersectsSymmetric(room, rooms[a]);
      } else {
        assert rs[a] == rooms[a] && rs[b] == rooms[b];
      }
    }
    forall k, x, y | 0 <= k < |rs| && Interior(rs[k], x, y)
      ensures Floor(carved, x, y)
    {
      if k < |rooms| {
        assert rs[k] == rooms[k];
        assert Floor(m, x, y);
      }
    }
  }

  /** One iteration of the room loop keeps the rooms half of the invariant. */
  lemma RoomStepKeepsRooms(g: Gen, i: nat)
    requires |g.objects| > 0 && RoomsInv(g)
    ensures RoomsInv(RoomStep(g, i))
  {
    var sample := SampleRoom(g.draws);
    if !AnyIntersects(sample.0, g.rooms) {
      var r := AcceptRoom(g, sample.0, sample.1, i);
      assert RoomStep(g, i) == r;
      AcceptedRoomKeepsRooms(g.rooms, sample.0, g.grid, r.grid);
    }
  }

  /** One iteration of the room loop keeps the objects half of the invariant. */
  lemma RoomStepKeepsObjects(objects0: seq<Object>, g: Gen, i: nat)
    requires |objects0| > 0 && GenInv(objects0, g)
    ensures ObjectsInv(objects0, RoomStep(g, i))
  {
    var sample := SampleRoom(g.draws);
    if !AnyIntersects(sample.0, g.rooms) {
      var r := AcceptRoom(g, sample.0, sample.1, i);
      assert RoomStep(g, i) == r;
      if |g.rooms| == 0 {
        CenterIsInterior(sample.0);
      }
      MonstersStayOnFloor(|objects0|, g.objects, g.grid, r.objects, r.grid, sample.0);
    }
  }

  /** Monsters kept from before an accepted room stay on floor of the carved
      map, and those placed in the room stand on its carved interior. */
  lemma MonstersStayOnFloor(from: nat, before: seq<Object>, m: Grid, after: seq<Object>, carved: Grid, room: Rect)
    requires ValidMap(m) && ValidMap(carved) && NoNewWalls(m, carved)
    requires forall k | from <= k < |before| :: IsMonster(before[k]) && Floor(m, before[k].x, before[k].y)
    requires forall x, y | Interior(room, x, y) :: Floor(carved, x, y)
    requires |before| <= |after| && forall k | from <= k < |before| :: after[k] == before[k]
    requires forall k | |before| <= k < |after| :: IsMonster(after[k]) && Interior(room, after[k].x, after[k].y)
    ensures forall k | from <= k < |after| :: IsMonster(after[k]) && Floor(carved, after[k].x, after[k].y)
  {
    forall k | from <= k < |after|
      ensures IsMonster(after[k]) && Floor(carved, after[k].x, after[k].y)
    {
      if k < |before| {
        assert Floor(m, before[k].x, before[k].y);
      }
    }
  }

  /** One iteration of the room loop keeps the invariant. */
  lemma RoomStepKeepsInv(objects0: seq<Object>, g: Gen, i: nat)
    requires ValidMap(g.grid) && |g.objects| > 0
    ensures |objects0| > 0 && GenInv(objects0, g) ==> GenInv(objects0, RoomStep(g, i))
  {
    if |objects0| > 0 && GenInv(objects0, g) {
      RoomStepKeepsRooms(g, i);
      RoomStepKeepsObjects(objects0, g, i);
    }
  }

  /** The room loop's starting state: a wall-filled map and no rooms. */
  function StartGen(objects: seq<Object>, ds: Stream): (g: Gen)
    requires |objects| > 0
    ensures GenInv(objects, g) && |g.rooms| == 0
  {
    Gen(WallMap(), [], objects, ds)
  }

  /** The whole room loop: at least the first room is always accepted. */
  function AcceptRooms(objects: seq<Object>, ds: Stream): (g: Gen)
    requires |objects| > 0
    ensures GenInv(objects, g)
    ensures 1 <= |g.rooms| <= MAX_ROOMS
    ensures AllWellPlaced(g.rooms) && PairwiseDisjoint(g.rooms)
    ensures |objects| <= |g.objects| <= |objects| + MAX_ROOMS_MONSTERS * |g.rooms|
    ensures g.objects[1..|objects|] == objects[1..]
    ensures g.objects[PLAYER] == SetPos(objects[PLAYER], Center(g.rooms[0]).0, Center(g.rooms[0]).1)
    ensures forall k | |objects| <= k < |g.objects| :: IsMonster(g.objects[k])
  {
    var g := RoomsFrom(objects, StartGen(objects, ds), 0);
    TailsAgree(g.objects, objects);
    g
  }

  lemma TailsAgree<T>(a: seq<T>, b: seq<T>)
    requires 1 <= |b| <= |a| && forall k | 1 <= k < |b| :: a[k] == b[k]
    ensures a[1..|b|] == b[1..]
  {
    assert forall k | 0 <= k < |b| - 1 :: a[1..|b|][k] == a[k + 1];
  }

  /** The two tunnels joining centre `a` to centre `b`: horizontal then
      vertical, turning at (b.x, a.y), or vertical then horizontal, turning
      at (a.x, b.y). */
  function JoinCenters(m: Grid, a: Point, b: Point, horizontalFirst: bool): (r: Grid)
    requires ValidMap(m) && InBounds(a.0, a.1) && InBounds(b.0, b.1)
    ensures ValidMap(r) && NoNewWalls(m, r)
    ensures forall x, y | InBounds(x, y) ::
      r[x][y] == if OnLegs(a, b, horizontalFirst, x, y) then Empty else m[x][y]
  {
    if horizontalFirst then CreateVTunnel(a.1, b.1, b.0, CreateHTunnel(a.0, b.0, a.1, m))
    else CreateHTunnel(a.0, b.0, b.1, CreateVTunnel(a.1, b.1, a.0, m))
  }

  /** The cells a tunnel pair covers: the first leg leaves `a` along its row
      (or column), the second reaches `b` along its column (or row), and the
      two meet at the turning cell. */
  predicate OnLegs(a: Point, b: Point, horizontalFirst: bool, x: int, y: int) {
    if horizontalFirst then
      || (y == a.1 && Min(a.0, b.0) <= x <= Max(a.0, b.0))
      || (x == b.0 && Min(a.1, b.1) <= y <= Max(a.1, b.1))
    else
      || (x == a.0 && Min(a.1, b.1) <= y <= Max(a.1, b.1))
      || (y == b.1 && Min(a.0, b.0) <= x <= Max(a.0, b.0))
  }

  /** Either way round, the tunnels make `b` reachable from `a`, through the
      turning cell. */
  lemma JoinCentersConnects(m: Grid, a: Point, b: Point, horizontalFirst: bool)
    requires ValidMap(m) && InBounds(a.0, a.1) && InBounds(b.0, b.1)
    ensures Connected(JoinCenters(m, a, b, horizontalFirst), a, b)
    ensures var turn := if horizontalFirst then (b.0, a.1) else (a.0, b.1);
      Floor(JoinCenters(m, a, b, horizontalFirst), turn.0, turn.1)
  {
    if horizontalFirst {
      var m1 := CreateHTunnel(a.0, b.0, a.1, m);
      var m2 := CreateVTunnel(a.1, b.1, b.0, m1);
      var p, q := HSeg(a.0, b.0, a.1), VSeg(b.0, a.1, b.1);
      HTunnelIsWalkable(a.0, b.0, a.1, m);
      VTunnelIsWalkable(a.1, b.1, b.0, m1);
      assert NoNewWalls(m1, m2);
      WalkableKept(m1, m2, p, a, (b.0, a.1));
      JoinWalkable(m2, p, q, a, (b.0, a.1), b);
    } else {
      var m1 := CreateVTunnel(a.1, b.1, a.0, m);
      var m2 := CreateHTunnel(a.0, b.0, b.1, m1);
      var p, q := VSeg(a.0, a.1, b.1), HSeg(a.0, b.0, b.1);
      VTunnelIsWalkable(a.1, b.1, a.0, m);
      HTunnelIsWalkable(a.0, b.0, b.1, m1);
      assert NoNewWalls(m1, m2);
      WalkableKept(m1, m2, p, a, (a.0, b.1));
      JoinWalkable(m2, p, q, a, (a.0, b.1), b);
    }
  }

  /** The centre of every room lies inside the map. */
  predicate CentersInBounds(rooms: seq<Rect>) {
    forall k | 0 <= k < |rooms| :: InBounds(Center(rooms[k]).0, Center(rooms[k]).1)
  }

  lemma WellPlacedCentersInBounds(rooms: seq<Rect>)
    requires AllWellPlaced(rooms)
    ensures CentersInBounds(rooms)
  {
  }

  /** The centre of room `i + 1` can be reached from that of room `i`. */
  ghost predicate PairJoined(m: Grid, rooms: seq<Rect>, i: nat)
    requires ValidMap(m)
  {
    i + 1 < |rooms| ==> Connected(m, Center(rooms[i]), Center(rooms[i + 1]))
  }

  /** One iteration of the connection loop, with the end test written
      without the unsigned underflow: the last room, and a lone room, are
      skipped. A room whose counter is below 2 is joined to the next one,
      horizontal tunnel first when the coin comes up true. */
  function JoinStep(m: Grid, rooms: seq<Rect>, i: nat, ds: Stream): (r: (Grid, Stream))
    requires ValidMap(m) && CentersInBounds(rooms) && i < |rooms|
    ensures ValidMap(r.0) && NoNewWalls(m, r.0)
    ensures i + 1 < |rooms| && rooms[i].connections < 2 ==> PairJoined(r.0, rooms, i)
    ensures !(i + 1 < |rooms| && rooms[i].connections < 2) ==> r == (m, ds)
  {
    if i + 1 >= |rooms| then (m, ds)
    else if rooms[i].connections < 2 then
      var coin := Coin(ds);
      JoinCentersConnects(m, Center(rooms[i]), Center(rooms[i + 1]), coin.0);
      (JoinCenters(m, Center(rooms[i]), Center(rooms[i + 1]), coin.0), coin.1)
    else (m, ds)
  }

  /** The connection loop from index `i`. The counter test reads the sorted
      vector, whose counters the loop never updates: it increments copies. */
  function ConnectFrom(m: Grid, rooms: seq<Rect>, i: nat, ds: Stream): (r: (Grid, Stream))
    requires ValidMap(m) && CentersInBounds(rooms) && i <= |rooms|
    ensures ValidMap(r.0) && NoNewWalls(m, r.0)
    // with no pair left to join, the loop leaves the map and the draws alone
    ensures i + 1 >= |rooms| ==> r == (m, ds)
    decreases |rooms| - i
  {
    if i == |rooms| then (m, ds)
    else
      var step := JoinStep(m, rooms, i, ds);
      var r := ConnectFrom(step.0, rooms, i + 1, step.1);
      NoNewWallsTransitive(m, step.0, r.0);
      r
  }

  /** Every consecutive pair from index `i` on whose first room passes the
      counter test ends up joined, whatever the coins. */
  lemma {:induction false} ConnectFromJoinsPairs(m: Grid, rooms: seq<Rect>, i: nat, ds: Stream)
    requires ValidMap(m) && CentersInBounds(rooms) && i <= |rooms|
    ensures forall j | i <= j < |rooms| - 1 && rooms[j].connections < 2 ::
      PairJoined(ConnectFrom(m, rooms, i, ds).0, rooms, j)
    decreases |rooms| - i
  {
    if i < |rooms| {
      var step := JoinStep(m, rooms, i, ds);
      var r := ConnectFrom(step.0, rooms, i + 1, step.1).0;
      assert ConnectFrom(m, rooms, i, ds).0 == r;
      ConnectFromJoinsPairs(step.0, rooms, i + 1, step.1);
      if i + 1 < |rooms| && rooms[i].connections < 2 {
        ConnectedKept(step.0, r, Center(rooms[i]), Center(rooms[i + 1]));
      }
    }
  }

  /** The connection loop as written: `i > rooms.len() - 2` subtracts in
      unsigned arithmetic, which aborts when exactly one room was accepted.
      With no rooms the loop body never runs; otherwise the loop is
      `ConnectFrom` from 0. */
  function ConnectRoomsAsWritten(m: Grid, rooms: seq<Rect>, ds: Stream): (r: Result<(Grid, Stream)>)
    requires ValidMap(m) && CentersInBounds(rooms)
    ensures r.Err? <==> |rooms| == 1
    ensures r.Err? ==> r.panic == SubtractOverflow
    ensures r.Ok? ==> r.value == ConnectFrom(m, rooms, 0, ds)
  {
    if |rooms| == 0 then Ok((m, ds))
    else if |rooms| - 2 < 0 then Err(SubtractOverflow)
    else Ok(ConnectFrom(m, rooms, 0, ds))
  }

  /** The generated level: the map, the arena with its monsters, and the
      sorted rooms (which `make_map` computes and then drops). */
  datatype Level = Level(grid: Grid, objects: seq<Object>, rooms: seq<Rect>, draws: Stream)

  /** Sorting keeps the rooms well placed and disjoint, and makes them
      strictly increasing by centre. */
  lemma SortedRoomsFacts(rooms: seq<Rect>)
    requires AllWellPlaced(rooms) && PairwiseDisjoint(rooms)
    ensures AllWellPlaced(SortByCenter(rooms))
    ensures PairwiseDisjoint(SortByCenter(rooms))
    ensures StrictlySortedByCenter(SortByCenter(rooms))
  {
    var sorted := SortByCenter(rooms);
    forall k | 0 <= k < |sorted|
      ensures WellPlaced(sorted[k])
    {
      assert sorted[k] in multiset(rooms);
    }
    SortKeepsDisjoint(rooms);
    forall i, j | 0 <= i < j < |sorted|
      ensures Center(sorted[i]) != Center(sorted[j])
    {
      DisjointRectsHaveDistinctCenters(sorted[i], sorted[j]);
    }
    SortedDistinctIsStrict(sorted);
  }

  /** The interiors of the sorted rooms are still walkable on any map that
      keeps the walkable cells of the room loop's map. */
  lemma SortedRoomsStayCarved(objects0: seq<Object>, g: Gen, sorted: seq<Rect>, m: Grid)
    requires |objects0| > 0 && GenInv(objects0, g)
    requires multiset(sorted) == multiset(g.rooms)
    requires ValidMap(m) && NoNewWalls(g.grid, m)
    ensures forall k, x, y | 0 <= k < |sorted| && Interior(sorted[k], x, y) :: Floor(m, x, y)
  {
    forall k, x, y | 0 <= k < |sorted| && Interior(sorted[k], x, y)
      ensures Floor(m, x, y)
    {
      assert sorted[k] in multiset(g.rooms);
      var j :| 0 <= j < |g.rooms| && g.rooms[j] == sorted[k];
      assert Floor(g.grid, x, y);
    }
  }

  /** The player and the monsters still stand on walkable cells of any map
      that keeps the walkable cells of the room loop's map. */
  lemma ObjectsStayOnFloor(objects0: seq<Object>, g: Gen, m: Grid)
    requires |objects0| > 0 && GenInv(objects0, g) && |g.rooms| > 0
    requires ValidMap(m) && NoNewWalls(g.grid, m)
    ensures Floor(m, g.objects[PLAYER].x, g.objects[PLAYER].y)
    ensures forall k | |objects0| <= k < |g.objects| ::
      IsMonster(g.objects[k]) && Floor(m, g.objects[k].x, g.objects[k].y)
  {
    forall k | |objects0| <= k < |g.objects|
      ensures IsMonster(g.objects[k]) && Floor(m, g.objects[k].x, g.objects[k].y)
    {
      assert Floor(g.grid, g.objects[k].x, g.objects[k].y);
    }
  }

  /** The accepted rooms after `rooms.sort_by`. */
  function SortedRooms(accepted: seq<Rect>): (rooms: seq<Rect>)
    requires AllWellPlaced(accepted) && PairwiseDisjoint(accepted) && |accepted| >= 1
    ensures |rooms| == |accepted|
    ensures AllWellPlaced(rooms) && CentersInBounds(rooms)
    ensures PairwiseDisjoint(rooms) && StrictlySortedByCenter(rooms)
    ensures multiset(rooms) == multiset(accepted)
    ensures exists k | 0 <= k < |rooms| :: rooms[k] == accepted[0]
  {
    SortedRoomsFacts(accepted);
    var sorted := SortByCenter(accepted);
    WellPlacedCentersInBounds(sorted);
    assert accepted[0] in multiset(sorted);
    sorted
  }

  /** `make_map` with the connection loop's end test corrected, so that a
      lone room is simply left unconnected. */
  function MakeMap(objects: seq<Object>, ds: Stream): (r: Level)
    requires |objects| > 0
    // the rooms: between 1 and MAX_ROOMS, well placed, disjoint, strictly sorted by centre
    ensures 1 <= |r.rooms| <= MAX_ROOMS
    ensures AllWellPlaced(r.rooms) && PairwiseDisjoint(r.rooms) && StrictlySortedByCenter(r.rooms)
    ensures multiset(r.rooms) == multiset(AcceptRooms(objects, ds).rooms)
    ensures ValidMap(r.grid)
    // the objects: the player moved to the first accepted room's centre, which is
    // one of the sorted rooms' centres; the others kept; monsters appended
    ensures |objects| <= |r.objects| <= |objects| + MAX_ROOMS_MONSTERS * |r.rooms|
    ensures r.objects[1..|objects|] == objects[1..]
    ensures var c := Center(AcceptRooms(objects, ds).rooms[0]);
      r.objects[PLAYER] == SetPos(objects[PLAYER], c.0, c.1)
    ensures exists k | 0 <= k < |r.rooms| :: Center(r.rooms[k]) == (r.objects[PLAYER].x, r.objects[PLAYER].y)
    ensures forall k | |objects| <= k < |r.objects| :: IsMonster(r.objects[k])
  {
    var g := AcceptRooms(objects, ds);
    var sorted := SortedRooms(g.rooms);
    var joined := ConnectFrom(g.grid, sorted, 0, g.draws);
    Level(joined.0, g.objects, sorted, joined.1)
  }

  /** On the generated map the room interiors are walkable, and so are the
      cells of the player and of every monster. */
  lemma MakeMapCarves(objects: seq<Object>, ds: Stream)
    requires |objects| > 0
    ensures var r := MakeMap(objects, ds);
      && (forall k, x, y | 0 <= k < |r.rooms| && Interior(r.rooms[k], x, y) :: Floor(r.grid, x, y))
      && Floor(r.grid, r.objects[PLAYER].x, r.objects[PLAYER].y)
      && (forall k | |objects| <= k < |r.objects| :: Floor(r.grid, r.objects[k].x, r.objects[k].y))
  {
    var g := AcceptRooms(objects, ds);
    var sorted := SortedRooms(g.rooms);
    var m := ConnectFrom(g.grid, sorted, 0, g.draws).0;
    assert MakeMap(objects, ds).grid == m && MakeMap(objects, ds).objects == g.objects;
    SortedRoomsStayCarved(objects, g, sorted, m);
    ObjectsStayOnFloor(objects, g, m);
  }

  /** In particular every room centre is walkable. */
  lemma MakeMapCentersWalkable(objects: seq<Object>, ds: Stream)
    requires |objects| > 0
    ensures var r := MakeMap(objects, ds);
      forall k | 0 <= k < |r.rooms| :: Floor(r.grid, Center(r.rooms[k]).0, Center(r.rooms[k]).1)
  {
    var r := MakeMap(objects, ds);
    MakeMapCarves(objects, ds);
    forall k | 0 <= k < |r.rooms|
      ensures Floor(r.grid, Center(r.rooms[k]).0, Center(r.rooms[k]).1)
    {
      CenterIsInterior(r.rooms[k]);
    }
  }

  /** A cell connected to the first room's centre through each consecutive
      pair reaches every later centre. */
  lemma {:induction false} ChainConnects(m: Grid, rooms: seq<Rect>, j: nat)
    requires ValidMap(m) && 0 <= j < |rooms|
    requires Floor(m, Center(rooms[0]).0, Center(rooms[0]).1)
    requires forall i | 0 <= i < |rooms| - 1 :: PairJoined(m, rooms, i)
    ensures Connected(m, Center(rooms[0]), Center(rooms[j]))
  {
    if j == 0 {
      assert WalkablePath(m, [Center(rooms[0])], Center(rooms[0]), Center(rooms[0]));
    } else {
      ChainConnects(m, rooms, j - 1);
      assert PairJoined(m, rooms, j - 1);
      ConnectedTransitive(m, Center(rooms[0]), Center(rooms[j - 1]), Center(rooms[j]));
    }
  }

  /** On the generated map each room is joined to the next: the counters are
      all 0, so the `< 2` test never skips a pair, whatever the coins. */
  lemma MakeMapJoinsPairs(objects: seq<Object>, ds: Stream)
    requires |objects| > 0
    ensures var r := MakeMap(objects, ds);
      forall i | 0 <= i < |r.rooms| - 1 :: PairJoined(r.grid, r.rooms, i)
  {
    var g := AcceptRooms(objects, ds);
    var rooms := SortedRooms(g.rooms);
    var m := ConnectFrom(g.grid, rooms, 0, g.draws).0;
    assert MakeMap(objects, ds).grid == m && MakeMap(objects, ds).rooms == rooms;
    ConnectFromJoinsPairs(g.grid, rooms, 0, g.draws);
    forall i | 0 <= i < |rooms| - 1
      ensures PairJoined(m, rooms, i)
    {
      assert WellPlaced(rooms[i]);
    }
  }

  /** Rooms joined pair by pair are all mutually reachable. */
  lemma ChainConnectsAll(m: Grid, rooms: seq<Rect>)
    requires ValidMap(m) && |rooms| >= 1
    requires Floor(m, Center(rooms[0]).0, Center(rooms[0]).1)
    requires forall i | 0 <= i < |rooms| - 1 :: PairJoined(m, rooms, i)
    ensures forall j, k | 0 <= j < |rooms| && 0 <= k < |rooms| :: Connected(m, Center(rooms[j]), Center(rooms[k]))
  {
    forall j, k | 0 <= j < |rooms| && 0 <= k < |rooms|
      ensures Connected(m, Center(rooms[j]), Center(rooms[k]))
    {
      ChainConnects(m, rooms, j);
      ChainConnects(m, rooms, k);
      ConnectedSymmetric(m, Center(rooms[0]), Center(rooms[j]));
      ConnectedTransitive(m, Center(rooms[j]), Center(rooms[0]), Center(rooms[k]));
    }
  }

  /** Every room centre of the level can be reached from every other. */
  ghost predicate RoomsConnected(l: Level)
    requires ValidMap(l.grid)
  {
    forall j, k | 0 <= j < |l.rooms| && 0 <= k < |l.rooms| ::
      Connected(l.grid, Center(l.rooms[j]), Center(l.rooms[k]))
  }

  /** The level's rooms form a chain: each centre is walkable and joined to
      the next. */
  ghost predicate Chained(l: Level)
  {
    && ValidMap(l.grid) && |l.rooms| >= 1
    && (forall k | 0 <= k < |l.rooms| :: Floor(l.grid, Center(l.rooms[k]).0, Center(l.rooms[k]).1))
    && (forall i | 0 <= i < |l.rooms| - 1 :: PairJoined(l.grid, l.rooms, i))
  }

  lemma ChainedIsConnected(l: Level)
    requires Chained(l)
    ensures RoomsConnected(l)
  {
    assert Floor(l.grid, Center(l.rooms[0]).0, Center(l.rooms[0]).1);
    ChainConnectsAll(l.grid, l.rooms);
  }

  lemma MakeMapIsChained(objects: seq<Object>, ds: Stream)
    requires |objects| > 0
    ensures Chained(MakeMap(objects, ds))
  {
    MakeMapJoinsPairs(objects, ds);
    MakeMapCentersWalkable(objects, ds);
  }

  /** The generated dungeon is connected: every room centre can be reached
      from every other. */
  lemma MakeMapConnectsRooms(objects: seq<Object>, ds: Stream)
    requires |objects| > 0
    ensures RoomsConnected(MakeMap(objects, ds))
  {
    MakeMapIsChained(objects, ds);
    ChainedIsConnected(MakeMap(objects, ds));
  }

  /** `make_map` as written: the same level as the corrected `MakeMap`,
      except that it aborts when exactly one room was accepted. */
  function MakeMapAsWritten(objects: seq<Object>, ds: Stream): (r: Result<Level>)
    requires |objects| > 0
    ensures r.Err? <==> |AcceptRooms(objects, ds).rooms| == 1
    ensures r.Err? ==> r.panic == SubtractOverflow
    ensures r.Ok? ==> r.value == MakeMap(objects, ds)
  {
    var g := AcceptRooms(objects, ds);
    var sorted := SortedRooms(g.rooms);
    match ConnectRoomsAsWritten(g.grid, sorted, g.draws)
    case Err(p) => Err(p)
    case Ok(joined) => Ok(Level(joined.0, g.objects, sorted, joined.1))
  }

  /** The single room the all-zero draws produce: every sample is this room. */
  const ZeroRoom: Rect := Rect(0, 0, ROOM_MIN_SIZE, ROOM_MIN_SIZE, 0)

  /** Once the zero room is accepted, an exhausted stream only resamples it,
      and it overlaps itself. */
  lemma {:induction false} ExhaustedStreamAddsNoRoom(objects0: seq<Object>, g: Gen, i: nat)
    requires ValidMap(g.grid) && |g.objects| > 0 && i <= MAX_ROOMS
    requires g.rooms == [ZeroRoom] && g.draws == []
    ensures RoomsFrom(objects0, g, i).rooms == [ZeroRoom]
    decreases MAX_ROOMS - i
  {
    if i < MAX_ROOMS {
      ExhaustedStreamResamplesZeroRoom(g, i);
      ExhaustedStreamAddsNoRoom(objects0, g, i + 1);
    }
  }

  /** The all-zero sample is the zero room, and it overlaps itself. */
  lemma ExhaustedStreamResamplesZeroRoom(g: Gen, i: nat)
    requires ValidMap(g.grid) && |g.objects| > 0
    requires g.rooms == [ZeroRoom] && g.draws == []
    ensures RoomStep(g, i) == g
  {
    assert SampleRoom([]) == (ZeroRoom, []);
    assert AnyIntersects(ZeroRoom, g.rooms) by {
      assert IntersectsWith(ZeroRoom, g.rooms[0]);
    }
  }

  /** With no random outcomes to draw on (every draw 0), every sampled room
      is the same 5 by 5 room in the corner, only the first is accepted, and
      `make_map` as written aborts on the unsigned subtraction. */
  lemma SingleRoomAborts(objects: seq<Object>)
    requires |objects| > 0
    ensures MakeMapAsWritten(objects, []) == Err(SubtractOverflow)
  {
    var g1 := RoomStep(StartGen(objects, []), 0);
    ExhaustedStreamAcceptsZeroRoom(objects);
    ExhaustedStreamAddsNoRoom(objects, g1, 1);
    assert AcceptRooms(objects, []).rooms == [ZeroRoom];
  }

  /** On an exhausted stream the first iteration accepts the zero room and
      leaves the stream exhausted. */
  lemma ExhaustedStreamAcceptsZeroRoom(objects: seq<Object>)
    requires |objects| > 0
    ensures var g1 := RoomStep(StartGen(objects, []), 0);
      ValidMap(g1.grid) && |g1.objects| > 0 && g1.rooms == [ZeroRoom] && g1.draws == []
  {
    assert SampleRoom([]) == (ZeroRoom, []);
  }


  /** The player starts where every room can be reached. */
  lemma PlayerReachesEveryRoom(objects: seq<Object>, ds: Stream)
    requires |objects| > 0
    ensures var r := MakeMap(objects, ds);
      forall k | 0 <= k < |r.rooms| :: Connected(r.grid, (r.objects[PLAYER].x, r.objects[PLAYER].y), Center(r.rooms[k]))
  {
    var r := MakeMap(objects, ds);
    MakeMapConnectsRooms(objects, ds);
    assert RoomsConnected(r);
    var p :| 0 <= p < |r.rooms| && Center(r.rooms[p]) == (r.objects[PLAYER].x, r.objects[PLAYER].y);
    forall k | 0 <= k < |r.rooms|
      ensures Connected(r.grid, (r.objects[PLAYER].x, r.objects[PLAYER].y), Center(r.rooms[k]))
    {
      assert Connected(r.grid, Center(r.rooms[p]), Center(r.rooms[k]));
    }
  }
}
