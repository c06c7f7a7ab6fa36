# rust_rogue core in Dafny

This project models the simulation core of the `rust_rogue` roguelike
(`src/main.rs`) in Dafny and proves properties about it. The core has four
parts:

- **The dungeon generator** (`make_map`, `place_objects`).
  - It fills an 80 × 43 map with walls.
  - It samples up to 30 rooms and rejects any room that overlaps one already
    accepted.
  - It carves each accepted room, populates it with orcs and trolls, and puts
    the player at the centre of the first room.
  - It sorts the rooms by centre and joins consecutive rooms with L-shaped
    tunnels.
- **The object arena.** Objects live in a vector with the player in slot 0.
  This part covers `mut_two`, `is_blocked`, and the two `move_by` operations.
- **Combat.** This covers `take_damage`, `attack`, the two death callbacks,
  and `merge`. Bumping into a fighter merges it into the player.
- **One game turn.** This covers the player's move or merge, every AI
  object's `ai_take_turn`, and the six-line message log.

Modelling choices:

- Every object is an immutable datatype. The map is `seq<seq<Tile>>`,
  indexed `[x][y]` as in the game. The arena is a `seq<Object>`.
- Randomness is an explicit stream of natural-number draws. Each call to the
  generator takes one draw, and a stream that runs dry keeps yielding 0.
  Every property of the generator therefore holds for every possible
  sequence of random outcomes. Lemmas such as `Dungeon.SampleRoomReachesEveryRoom`
  show that the draws reach every outcome the generator can produce.
- Three of the Rust program's panics are modelled: there the model returns
  `Err` with the cause.
  - `IndicesEqual`: the assertion in `mut_two` (src/main.rs:284).
  - `IndexOutOfBounds`: a move that leaves the map. This is the map index
    in `is_blocked` (src/main.rs:677), reached through the free `move_by`,
    and the map index in `Object::move_by` (src/main.rs:191). It is also the
    slice index in `mut_two` when an index lies outside the arena.
  - `SubtractOverflow`: the unsigned subtraction `rooms.len() - 2` in
    `make_map` (src/main.rs:401).

  Every other panic is excluded by a precondition; "## Left out" lists them.
- The field of view is computed outside the core, so it is a parameter: the
  set of visible cells.

Facts about the code that the model follows:

- **Monster movement.** The comment at src/main.rs:299 says "move towards
  player if far away", but line 302 calls `move_away`. `Turns.AiTakeTurn`
  therefore moves the monster away.
- **Damage.** `take_damage` (src/main.rs:222-237) subtracts a positive
  amount with no floor at 0. It sets hp to 0 when the amount is not positive.
- **Merge arithmetic.** `merge` (src/main.rs:253-257) multiplies each summed
  stat by 0.75 and truncates it with `as i32`. It never clamps hp to max hp.
- **Merge side effects.** `player_move_or_attack` (src/main.rs:552-556)
  returns the merged object and leaves the absorbed object in the arena.
- **Tunnels.** `create_h_tunnel` and `create_v_tunnel` (src/main.rs:330-340)
  carve one cell wide. A coin (src/main.rs:412) picks the order of the two
  legs.
- **Connection counters.** `make_map` increments `connections` on copies of
  the rooms (src/main.rs:405-422). The stored counters stay 0, so the
  `< 2` test never skips a pair.
- **Monster placement.** `place_objects` (src/main.rs:624-659) never calls
  `is_blocked`, so two monsters may share a cell.
- **Exploration.** `Tile::new` (src/main.rs:100-102) stores its `blocked`
  argument in `explored`. `render_all` (src/main.rs:453-457) copies the flag
  into a local variable and never writes it back.

## Model

| member | source | states |
|---|---|---|
| Tiles.NewTile | src/main.rs:100-102 | `Tile::new` keeps `blocked`, `block_sight` and the glyph, and stores `blocked` (not its own argument) in `explored` |
| Tiles.NewTileIgnoresExplored | src/main.rs:100-102 | the `explored` argument of `Tile::new` has no effect on the tile built |
| Tiles.WallMap | src/main.rs:344 | the starting map has MAP_WIDTH columns of MAP_HEIGHT cells, every one a wall |
| Tiles.SetTile | src/main.rs:324 | writing one cell changes exactly that cell and keeps the map's shape |
| Carving.CreateHTunnel | src/main.rs:330-334 | exactly the cells (x, y) with min(x1,x2) <= x <= max(x1,x2) become empty floor; every other cell is unchanged |
| Carving.CreateVTunnel | src/main.rs:336-340 | exactly the cells (x, y) with min(y1,y2) <= y <= max(y1,y2) become empty floor; every other cell is unchanged |
| Carving.CreateRoom | src/main.rs:320-328 | the strict interior becomes empty floor, the far corner becomes a walkable opaque tile with the room glyph and `explored` false, and every other cell is unchanged |
| Carving.CarvingAddsNoWalls | src/main.rs:320-340 | no carving operation turns a walkable cell into a wall |
| Rects.NewRect | src/main.rs:123-125 | the rectangle spans (x, y) to (x + w, y + h) with no connections |
| Rects.Center | src/main.rs:127-131 | each coordinate of the centre is half the sum of the two corner coordinates, rounded toward zero (so twice it is the sum or one less for a non-negative sum, the sum or one more for a negative one); it lies within the rectangle, and strictly inside it on each axis at least 2 wide |
| Rects.IntersectsSymmetric | src/main.rs:133-137 | the overlap test gives the same answer with its arguments swapped |
| Rects.IntersectsIffShareCell | src/main.rs:133-137 | two proper rectangles pass the overlap test exactly when some cell lies in both closed rectangles |
| Rects.DisjointRectsHaveDistinctCenters | src/main.rs:127-137 | rectangles that fail the overlap test have different centres |
| Rects.CompareCenters | src/main.rs:381-396 | the sort comparator answers Less, Equal or Greater exactly when the (centre y, centre x) pairs are lexicographically less, equal or greater |
| Rects.SortByCenter | src/main.rs:381-396 | sorting yields a permutation of the rooms, ordered by centre |
| Rects.StrictSortIsUnique | src/main.rs:381-396 | a collection with distinct centres has exactly one sorted arrangement, so the result does not depend on which sort is used |
| Rects.SortKeepsDisjoint | src/main.rs:381-396 | sorting keeps the rooms pairwise non-overlapping |
| Draws.GenRange | src/main.rs:350-354 | `gen_range(lo, hi)` yields a value in [lo, hi) and consumes one draw |
| Draws.GenRangeReachesEveryValue | src/main.rs:350-354 | every value of the range is produced by some draw |
| Draws.Coin | src/main.rs:412 | the coin flip is decided by the next draw and consumes it |
| Draws.CoinBothOutcomes | src/main.rs:412 | both tunnel orders are possible: some draw gives heads and some gives tails |
| Draws.CoinOneInTwo | src/main.rs:412 | the flip depends only on the draw's parity and gives heads for exactly one of every two consecutive draw values, the fair coin `rand::random::<bool>()` stands for |
| Draws.Chance80 | src/main.rs:633 | the orc test consumes one draw and holds exactly when that draw's last decimal digit is below 8 |
| Draws.Chance80EightInTen | src/main.rs:633 | the test holds for exactly eight of every ten consecutive draw values, the 80% the game asks for |
| Draws.Chance80BothOutcomes | src/main.rs:633 | the 80% orc test can come out either way |
| Objects.NewObject | src/main.rs:175-187 | a new object has the given position, glyph, name, colour and blocking flag; it is not alive and has no fighter and no AI |
| Objects.NewPlayer | src/main.rs:745-753 | the player starts at (0, 0) as a white '@' named "Player", alive and blocking, with fighter 30/30 hp, defense 2, power 5, player death, and no AI |
| Objects.ObjectMoveBy | src/main.rs:190-195 | `Object::move_by` aborts off the map, moves by exactly (dx, dy) onto walkable terrain, and stays put at a wall, whatever objects stand there |
| Objects.PlayerDeath | src/main.rs:140-147 | the dead player turns into a dark red '%' and every other field is kept |
| Objects.Die | src/main.rs:76-85 | either callback keeps position and liveness and turns the object dark red; the player's changes only glyph and colour, a monster's leaves non-blocking 'x' remains without fighter or AI |
| Objects.MonsterDeath | src/main.rs:149-159 | a dead monster becomes non-blocking remains 'x' named "remains of " + name, with no fighter and no AI, in the same place |
| Objects.TakeDamage | src/main.rs:222-239 | a survivor loses exactly the damage; a non-positive amount zeroes hp and kills; a dying monster turns into remains; a dying player changes only glyph, colour, hp and liveness; objects without a fighter are unaffected |
| Objects.TakeDamageKeepsLifeConsistent | src/main.rs:222-239 | if a fighter was alive exactly when it had hp left, that stays true after taking damage |
| Objects.RemainsIgnoreDamage | src/main.rs:222-239 | remains left by a monster cannot be damaged again |
| Objects.Attack | src/main.rs:241-251 | damage is attacker power minus target defense, with a missing fighter counting 0; positive damage takes exactly that much hp and kills at hp <= 0; any other amount leaves the target unchanged; positive damage is exactly `take_damage` of that amount |
| Objects.AttackExamples | src/main.rs:241-251 | power 5 against defense 0 takes 5 hp; power 3 against defense 2 takes 1; power 2 against defense 5 changes nothing |
| Objects.ThreeQuarters | src/main.rs:254-257 | `(s as f32 * 0.75) as i32` is three quarters of s truncated toward zero, on both signs |
| Objects.Merge | src/main.rs:253-278 | the merged object has self's position, glyph and blocking, the target's colour and the joined name; each stat is three quarters of the pair's sum; it dies like a player, keeps self's AI and is alive |
| Objects.MergeExample | src/main.rs:253-278 | the starting player merged with a 15/15, defense 1, power 3 fighter gets power 6, defense 2 and 33/33 hp |
| Objects.MergeKeepsHpWithinMax | src/main.rs:253-278 | although hp is not clamped, inputs with 0 <= hp <= max hp give a result within the same bounds, and two living fighters merge into a living one |
| Arena.MutTwo | src/main.rs:283-292 | the two slots are returned in argument order; equal indices fail the assertion, and an index past the end fails the slice access |
| Arena.MutTwoThenPutTwo | src/main.rs:283-292 | writing back the two views unchanged restores the arena |
| Arena.AnyBlockingAt | src/main.rs:681-683 | true exactly when some blocking object stands at the cell |
| Arena.IsBlocked | src/main.rs:675-684 | aborts exactly off the map; otherwise true exactly when the terrain blocks or a blocking object stands there |
| Arena.MoveBy | src/main.rs:311-316 | aborts exactly when the destination is off the map; otherwise a no-op onto an occupied cell, and otherwise only the mover changes position, by exactly (dx, dy) |
| Arena.MoveByKeepsArenaInvariants | src/main.rs:311-316 | a move never stacks two blocking objects and never puts one on a wall |
| Arena.MoveByMatchesObjectMoveBy | src/main.rs:190-195 | with no blocker at the destination, the free `move_by` and `Object::move_by` agree |
| Arena.ObjectMoveByIgnoresBlockers | src/main.rs:190-195 | `Object::move_by` walks onto a cell held by a blocking object, where the free `move_by` refuses |
| Arena.FindFighterAt | src/main.rs:548-550 | the search returns the first index whose object has a fighter at the cell, or none when no object does |
| Turns.DistSq | src/main.rs:216-220 | the squared distance, compared against 4 where the game compares `distance_to` against 2.0, is never negative and is zero exactly at the same cell |
| Turns.RoundedUnit | src/main.rs:523-524 | each rounded component of the normalised direction is 0 or the sign of that component |
| Turns.TowardStep | src/main.rs:528-540 | the `move_towards` step is a king move that never increases the distance to the target, and strictly decreases it away from the target |
| Turns.AwayStep | src/main.rs:515-526 | the `move_away` step is a king move that never decreases the distance to the target, and strictly increases it away from the target |
| Turns.MoveAway | src/main.rs:515-526 | the monster takes exactly the `move_away` step through the free `move_by`, aborting exactly when that step leaves the map; only the mover can change, it does not get closer to the target, and it keeps its AI |
| Turns.MoveTowards | src/main.rs:528-540 | the monster takes exactly the `move_towards` step through the free `move_by`, aborting exactly when that step leaves the map; only the mover can change, it does not get farther from the target, and it keeps its AI |
| Turns.AiTakeTurn | src/main.rs:294-309 | an unseen monster does nothing; a seen monster 2 or more away makes exactly the `move_away` step from the player (so it moves only itself and gets no closer); a nearer one attacks a player with hp left, changing only the player's slot; the `mut_two` assertion fails exactly when the player itself acts in view with hp left |
| Turns.AiLoop | src/main.rs:840-846 | the loop over AI objects skips objects without AI, keeps the arena's size, never gives the player an AI, and cannot fail the aliasing assertion while the player has none |
| Turns.MonstersTurn | src/main.rs:840-846 | when the player is dead or took no turn the arena is unchanged; otherwise the result is that of the loop over AI objects, `Turns.AiLoop`; the size is kept and no aliasing failure arises while the player has no AI; `Exit` passes the guard like `TookTurn`, as the loop breaks on it earlier (src/main.rs:836-838) |
| Turns.PlayerMoveOrAttack | src/main.rs:542-564 | a bump into another fighter returns the merge and leaves the arena untouched; a bump into the player's own cell fails the aliasing assertion; otherwise the player makes an arena move |
| Turns.ReplacePlayer | src/main.rs:833-835 | the returned object replaces slot PLAYER and nothing else |
| Turns.PlayerTurn | src/main.rs:832-835 | after a merge the player's slot holds the merge and every other slot, the absorbed object's included, is unchanged; with no fighter at the destination the player makes exactly the arena move; a bump into the player's own cell fails the aliasing assertion; the player's AI is kept |
| Turns.TurnNeverAliases | src/main.rs:303-306 | for an arrow move of a player without AI (as created), neither the player's move nor any monster turn can fail the `mut_two` assertion |
| MessageLog.Message | src/main.rs:716-723 | the new line is last; a log within capacity becomes the newest MSG_HEIGHT lines of log plus the new line |
| MessageLog.LogKeepsNewestLines | src/main.rs:716-723 | however many lines are logged into a log within capacity, it holds exactly the newest MSG_HEIGHT of them, oldest first |
| Paths.HTunnelIsWalkable | src/main.rs:330-334 | a horizontal tunnel is a walkable 4-connected path between its ends |
| Paths.VTunnelIsWalkable | src/main.rs:336-340 | a vertical tunnel is a walkable 4-connected path between its ends |
| Dungeon.SampleRoom | src/main.rs:350-356 | a sampled room has sides between ROOM_MIN_SIZE and ROOM_MAX_SIZE and lies inside the map |
| Dungeon.SampleRoomReachesEveryRoom | src/main.rs:350-356 | every such room is sampled by some draws |
| Dungeon.AnyIntersects | src/main.rs:359 | true exactly when the new room overlaps some accepted room |
| Dungeon.PlaceMonster | src/main.rs:630-657 | each monster is an orc (10/10, defense 0, power 3) or a troll (15/15, defense 1, power 4), alive, blocking, with an AI, strictly inside the room |
| Dungeon.PlaceMonsterReachesEveryMonster | src/main.rs:630-656 | every interior cell can receive an orc and a troll |
| Dungeon.PlaceObjects | src/main.rs:624-659 | 0 to MAX_ROOMS_MONSTERS monsters are appended after the existing objects, which are kept |
| Dungeon.PlaceObjectsReachesEveryCount | src/main.rs:626 | every count from 0 to MAX_ROOMS_MONSTERS occurs |
| Dungeon.PlaceObjectsMayStack | src/main.rs:628-659 | two placed monsters can share a cell |
| Dungeon.Glyph | src/main.rs:365 | `(i as u8) as char` is the character with code i mod 256 |
| Dungeon.GlyphsDistinct | src/main.rs:365 | the corner markers of the MAX_ROOMS possible room indices are all different, so each accepted room's corner carries its own marker |
| Dungeon.AcceptRoom | src/main.rs:361-379 | accepting a room carves its interior, appends it, appends its monsters, and moves the player to its centre only when it is the first room |
| Dungeon.RoomStep | src/main.rs:348-379 | one iteration appends the sampled room exactly when it overlaps no accepted room, and otherwise keeps the room list; it adds no walls, never shrinks the arena and changes no object except the player |
| Dungeon.RoomsFrom | src/main.rs:348-380 | the room loop keeps the generation invariant: rooms well placed, pairwise disjoint and carved; the player and all monsters on floor |
| Dungeon.RoomStepKeepsInv | src/main.rs:348-379 | one iteration of the room loop keeps the generation invariant |
| Dungeon.AcceptRooms | src/main.rs:344-380 | 1 to MAX_ROOMS rooms are accepted, well placed and pairwise disjoint; the player is at the first room's centre; the other objects are kept; monsters are appended |
| Dungeon.JoinCenters | src/main.rs:410-420 | the coin picks the leg order; exactly the cells of the two legs (from the first centre along its row or column, to the second along its column or row) become empty, and every other cell is unchanged |
| Dungeon.JoinCentersConnects | src/main.rs:410-420 | either L tunnel makes the second centre reachable from the first, through the corner cell |
| Dungeon.JoinStep | src/main.rs:405-423 | a pair whose first counter is below 2 gets joined; otherwise nothing changes |
| Dungeon.ConnectFrom | src/main.rs:399-426 | the connection loop adds no walls and, once no pair is left, changes neither the map nor the draws |
| Dungeon.ConnectFromJoinsPairs | src/main.rs:399-426 | the connection loop joins every consecutive pair whose first counter is below 2 |
| Dungeon.ConnectRoomsAsWritten | src/main.rs:399-404 | the loop as written aborts exactly when there is one room, and otherwise behaves as the corrected loop |
| Dungeon.SortedRooms | src/main.rs:381-396 | the sorted rooms are a permutation of the accepted ones, strictly ordered by centre, still well placed and disjoint |
| Dungeon.MakeMap | src/main.rs:342-429 | the level has 1 to MAX_ROOMS rooms, disjoint and strictly sorted; the player stands at one of their centres; the other objects are kept and monsters are appended |
| Dungeon.MakeMapCarves | src/main.rs:342-429 | every room interior is walkable, and so are the cells of the player and of every monster |
| Dungeon.MakeMapJoinsPairs | src/main.rs:405-423 | because the counters are only incremented on copies, every consecutive pair is joined |
| Dungeon.MakeMapConnectsRooms | src/main.rs:342-429 | every room centre can be reached from every other by walking on floor |
| Dungeon.PlayerReachesEveryRoom | src/main.rs:370-375 | the player starts where every room centre can be reached |
| Dungeon.MakeMapAsWritten | src/main.rs:401 | `make_map` as written aborts exactly when one room was accepted, and otherwise yields the corrected level |
| Dungeon.SingleRoomAborts | src/main.rs:401 | with every draw 0, only one room is accepted and `make_map` as written aborts |

## Left out

- Rendering and console I/O are left out. This covers `render_all`,
  `render_bar`, `Object::draw` and `clear`, the panel, colour values and
  `get_names_under_mouse`. They are side effects in the terminal library.
- The field of view is not computed. It is a parameter: the set of cells
  the player sees.
- Input, windowing and the main loop's timing are left out. This covers
  `handle_keys`, the fullscreen toggle, event polling and the frame delta.
  Only the arrow-key moves, as `Turns.ArrowMove`, and the turn structure of
  the loop are modelled.
- `println!` output is left out. It does not affect the game state.
- The random generator is replaced by a stream of draws, as described above.
  The model does not claim any distribution.
- Floating point is replaced by exact integer arithmetic:
  - `distance_to(..) >= 2.0` becomes a squared distance of at least 4;
  - the rounded normalised direction becomes `Turns.RoundedUnit`;
  - `x * 0.75` truncated becomes `Objects.ThreeQuarters`.

  These agree with f32 arithmetic on the small values the game uses.
- i32 overflow of coordinates and stats is not modelled. All the values the
  game produces are far below 2^31.
- `src/enums.rs` is not part of this model. The crate never compiles it.
- Items are not modelled, because their code is commented out in
  `place_objects`.
- Turns.AiLoop: the contract states what the whole loop keeps (the arena's
  size, the player's missing AI, the absence of aliasing failures) and that
  objects without AI are skipped. It does not compose each monster's effect,
  which `Turns.AiTakeTurn` states for one turn.
- Dungeon.PlaceMonster: requires a room at least 3 wide and 3 high, because
  `gen_range` panics on an empty range. Every room `make_map` samples is at
  least 5 wide, so the panic cannot arise there.
- Dungeon.MakeMap: the room loop is stated through `Dungeon.AcceptRooms`, so
  that the player's position and the room multiset can be given. The map's
  exact cells are stated only as the carving facts of `Dungeon.MakeMapCarves`
  and the connectivity lemmas.
- Dungeon.ConnectFrom: the contract does not give the exact cells the whole
  loop carves. `Dungeon.JoinCenters` gives them for one pair, and
  `Dungeon.ConnectFromJoinsPairs` states that every pair is joined.
- Panics excluded by a precondition rather than modelled as `Err`:
  - Tiles.SetTile, Carving.CreateRoom, Carving.CreateHTunnel and
    Carving.CreateVTunnel require their cells to lie on the map, so the map
    indexing at src/main.rs:320-340 never goes out of bounds in the model.
    `make_map` only passes them rooms and centres inside the map.
  - Draws.GenRange requires `lo < hi`; `gen_range` panics on an empty range.
  - Arena.MoveBy, Turns.AiTakeTurn and Turns.PlayerMoveOrAttack require the
    index they are given (`objects[id]`, `objects[PLAYER]`) to be in the
    arena.
  - Dungeon.MakeMap requires a non-empty arena, because `make_map` calls
    `objects[PLAYER].set_pos`.
  - Every map operation requires an 80 × 43 map, the only size the game
    builds.
- Release builds are not modelled. There, `rooms.len() - 2` wraps instead of
  aborting, and a single room then aborts on the index `rooms[i + 1]`
  (src/main.rs:405).

## Findings

| source | as written | input that shows it | evidently intended | confidence | as-written member | corrected member |
|---|---|---|---|---|---|---|
| src/main.rs:401 | `if i > (rooms.len() - 2)` subtracts in `usize`, which underflows when exactly one room was accepted | every random draw yields 0: each sample is the same 5 × 5 room in the corner, so only the first is accepted | a lone room is left unconnected, and the loop joins consecutive rooms only while `i + 1 < rooms.len()` | not executed | Dungeon.MakeMapAsWritten (shown by Dungeon.SingleRoomAborts) | Dungeon.MakeMap (proved connected by Dungeon.MakeMapConnectsRooms) |
