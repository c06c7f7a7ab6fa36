/** One game turn: the player's bump (`player_move_or_attack` and the slot
    replacement in the main loop), each monster's `ai_take_turn`, and the
    loop over all AI-bearing objects. */
module Turns {
  import opened Common
  import opened Tiles
  import opened Objects
  import opened Arena

  function Sign(n: int): int {
    if n > 0 then 1 else if n < 0 then -1 else 0
  }

  /** One component of `(d as f32 / sqrt(d*d + e*e)).round() as i32`.
      Rounding half away from zero yields a unit exactly when
      |d| / sqrt(d*d + e*e) >= 1/2, that is when 3*d*d >= e*e; for integers
      d != 0 the quotient never equals 1/2 because sqrt 3 is irrational. With
      d = e = 0 the quotient is NaN, which the cast turns into 0. */
  function RoundedUnit(d: int, e: int): (c: int)
    ensures -1 <= c <= 1
    ensures c == 0 || c == Sign(d)
  {
    if d != 0 && 3 * d * d >= e * e then Sign(d) else 0
  }

  /** Squared Euclidean distance; `distance_to(..) >= 2.0` is `DistSq(..) >= 4`. */
  function DistSq(x0: int, y0: int, x1: int, y1: int): (r: int)
    ensures r >= 0
    ensures r == 0 <==> x0 == x1 && y0 == y1
  {
    (x1 - x0) * (x1 - x0) + (y1 - y0) * (y1 - y0)
  }

  lemma MulNonNegative(x: int, y: int)
    requires x >= 0 && y >= 0
    ensures x * y >= 0
  {
  }

  /** Squares grow with magnitude. */
  lemma SquareGrowsWithMagnitude(d: int, e: int)
    requires (if e < 0 then -e else e) <= (if d < 0 then -d else d)
    ensures e * e <= d * d
  {
    var p, q := if d < 0 then -d else d, if e < 0 then -e else e;
    assert d * d == p * p by { assert d * d == (-d) * (-d); }
    assert e * e == q * q by { assert e * e == (-e) * (-e); }
    assert p * p - q * q == (p - q) * (p + q);
    MulNonNegative(p - q, p + q);
  }

  /** Of two integers not both zero, the larger in magnitude rounds to a unit. */
  lemma RoundedUnitSomewhere(d: int, e: int)
    ensures d != 0 || e != 0 ==> RoundedUnit(d, e) != 0 || RoundedUnit(e, d) != 0
  {
    MulNonNegative(if d < 0 then -d else d, if d < 0 then -d else d);
    MulNonNegative(if e < 0 then -e else e, if e < 0 then -e else e);
    assert d * d >= 0 by { assert d * d == (-d) * (-d); }
    assert e * e >= 0 by { assert e * e == (-e) * (-e); }
    if (if e < 0 then -e else e) <= (if d < 0 then -d else d) {
      SquareGrowsWithMagnitude(d, e);
    } else {
      SquareGrowsWithMagnitude(e, d);
    }
  }

  /** A unit step toward the sign of d shrinks d's square; one against it grows it. */
  lemma ComponentSquares(d: int, c: int)
    requires c == 0 || c == Sign(d)
    ensures (d - c) * (d - c) <= d * d
    ensures c != 0 ==> (d - c) * (d - c) < d * d
    ensures (d + c) * (d + c) >= d * d
    ensures c != 0 ==> (d + c) * (d + c) > d * d
  {
    if c == 1 {
      assert (d - 1) * (d - 1) == d * d - 2 * d + 1;
      assert (d + 1) * (d + 1) == d * d + 2 * d + 1;
    } else if c == -1 {
      assert (d + 1) * (d + 1) == d * d + 2 * d + 1;
      assert (d - 1) * (d - 1) == d * d - 2 * d + 1;
    }
  }

  /** The step `move_towards` takes from (x, y) toward (tx, ty): a king move
      that never increases, and away from the target strictly decreases, the
      distance. */
  function TowardStep(x: int, y: int, tx: int, ty: int): (s: (int, int))
    ensures -1 <= s.0 <= 1 && -1 <= s.1 <= 1
    ensures DistSq(x + s.0, y + s.1, tx, ty) <= DistSq(x, y, tx, ty)
    ensures (x, y) != (tx, ty) ==> s != (0, 0) && DistSq(x + s.0, y + s.1, tx, ty) < DistSq(x, y, tx, ty)
    // each component is either still or heads toward the target
    ensures s.0 == 0 || s.0 == Sign(tx - x)
    ensures s.1 == 0 || s.1 == Sign(ty - y)
  {
    var (dx, dy) := (tx - x, ty - y);
    var s := (RoundedUnit(dx, dy), RoundedUnit(dy, dx));
    ComponentSquares(dx, s.0);
    ComponentSquares(dy, s.1);
    RoundedUnitSomewhere(dx, dy);
    assert tx - (x + s.0) == dx - s.0 && ty - (y + s.1) == dy - s.1;
    s
  }

  /** The step `move_away` takes: the distance is negated before dividing,
      so each component is the opposite of the `move_towards` one. The step
      never decreases, and away from the target strictly increases, the
      distance. */
  function AwayStep(x: int, y: int, tx: int, ty: int): (s: (int, int))
    ensures -1 <= s.0 <= 1 && -1 <= s.1 <= 1
    ensures DistSq(x + s.0, y + s.1, tx, ty) >= DistSq(x, y, tx, ty)
    ensures (x, y) != (tx, ty) ==> s != (0, 0) && DistSq(x + s.0, y + s.1, tx, ty) > DistSq(x, y, tx, ty)
    // each component is either still or heads away from the target
    ensures s.0 == 0 || s.0 == -Sign(tx - x)
    ensures s.1 == 0 || s.1 == -Sign(ty - y)
  {
    var (dx, dy) := (tx - x, ty - y);
    var s := (-RoundedUnit(dx, dy), -RoundedUnit(dy, dx));
    ComponentSquares(dx, RoundedUnit(dx, dy));
    ComponentSquares(dy, RoundedUnit(dy, dx));
    RoundedUnitSomewhere(dx, dy);
    assert tx - (x + s.0) == dx + RoundedUnit(dx, dy) && ty - (y + s.1) == dy + RoundedUnit(dy, dx);
    s
  }

  /** `move_away`: an arena move of `objects[id]` by `AwayStep`. */
  function MoveAway(id: nat, tx: int, ty: int, m: Grid, objects: seq<Object>): (r: Result<seq<Object>>)
    requires ValidMap(m) && id < |objects|
    ensures var s := AwayStep(objects[id].x, objects[id].y, tx, ty);
      && (r.Err? <==> !InBounds(objects[id].x + s.0, objects[id].y + s.1))
      && r == MoveBy(id, s.0, s.1, m, objects)
    ensures r.Err? ==> r.panic == IndexOutOfBounds
    ensures r.Ok? ==> |r.value| == |objects|
    ensures r.Ok? ==> forall k | 0 <= k < |objects| && k != id :: r.value[k] == objects[k]
    ensures r.Ok? ==> DistSq(r.value[id].x, r.value[id].y, tx, ty) >= DistSq(objects[id].x, objects[id].y, tx, ty)
    ensures r.Ok? ==> r.value[id].ai == objects[id].ai
  {
    var s := AwayStep(objects[id].x, objects[id].y, tx, ty);
    MoveBy(id, s.0, s.1, m, objects)
  }

  /** `move_towards` (defined by the game but not called by it). */
  function MoveTowards(id: nat, tx: int, ty: int, m: Grid, objects: seq<Object>): (r: Result<seq<Object>>)
    requires ValidMap(m) && id < |objects|
    ensures var s := TowardStep(objects[id].x, objects[id].y, tx, ty);
      && (r.Err? <==> !InBounds(objects[id].x + s.0, objects[id].y + s.1))
      && r == MoveBy(id, s.0, s.1, m, objects)
    ensures r.Err? ==> r.panic == IndexOutOfBounds
    ensures r.Ok? ==> |r.value| == |objects|
    ensures r.Ok? ==> forall k | 0 <= k < |objects| && k != id :: r.value[k] == objects[k]
    ensures r.Ok? ==> DistSq(r.value[id].x, r.value[id].y, tx, ty) <= DistSq(objects[id].x, objects[id].y, tx, ty)
    ensures r.Ok? ==> r.value[id].ai == objects[id].ai
  {
    var s := TowardStep(objects[id].x, objects[id].y, tx, ty);
    MoveBy(id, s.0, s.1, m, objects)
  }

  /** The player has a fighter with hp left. */
  predicate PlayerHasHp(objects: seq<Object>)
    requires PLAYER < |objects|
  {
    objects[PLAYER].fighter.Some? && objects[PLAYER].fighter.value.hp > 0
  }

  /** The monster at `id` is at least 2 away from the player. */
  predicate FarFromPlayer(id: nat, objects: seq<Object>)
    requires id < |objects| && PLAYER < |objects|
  {
    DistSq(objects[id].x, objects[id].y, objects[PLAYER].x, objects[PLAYER].y) >= 4
  }

  /** `ai_take_turn`. `fov` is the set of cells the player can see, computed
      outside the core. A visible monster at distance 2 or more steps away
      from the player (the game calls `move_away` here); a visible monster
      closer than that attacks the player through `mut_two` while the player
      has hp left. */
  function AiTakeTurn(id: nat, m: Grid, objects: seq<Object>, fov: set<(int, int)>): (r: Result<seq<Object>>)
    requires ValidMap(m) && id < |objects| && PLAYER < |objects|
    // an unseen monster does nothing
    ensures (objects[id].x, objects[id].y) !in fov ==> r == Ok(objects)
    // the arena aliasing check fails exactly when the player itself takes an AI turn in view
    ensures (r.Err? && r.panic == IndicesEqual) <==>
      id == PLAYER && (objects[id].x, objects[id].y) in fov && PlayerHasHp(objects)
    // a far monster only moves itself, and never toward the player
    ensures (objects[id].x, objects[id].y) in fov && FarFromPlayer(id, objects) && r.Ok? ==>
      && |r.value| == |objects|
      && (forall k | 0 <= k < |objects| && k != id :: r.value[k] == objects[k])
      && DistSq(r.value[id].x, r.value[id].y, objects[PLAYER].x, objects[PLAYER].y)
           >= DistSq(objects[id].x, objects[id].y, objects[PLAYER].x, objects[PLAYER].y)
    // and the move it makes is exactly `move_away` from the player
    ensures (objects[id].x, objects[id].y) in fov && FarFromPlayer(id, objects) ==>
      r == MoveAway(id, objects[PLAYER].x, objects[PLAYER].y, m, objects)
    // a near monster attacks a player with hp left, changing only the player's slot
    ensures (objects[id].x, objects[id].y) in fov && !FarFromPlayer(id, objects) && PlayerHasHp(objects) && id != PLAYER ==>
      r == Ok(objects[PLAYER := Attack(objects[id], objects[PLAYER])])
    ensures (objects[id].x, objects[id].y) in fov && !FarFromPlayer(id, objects) && !PlayerHasHp(objects) ==>
      r == Ok(objects)
    // the arena keeps its size, and a player without AI never gains one
    ensures r.Ok? ==> |r.value| == |objects|
    ensures r.Ok? && objects[PLAYER].ai.None? ==> r.value[PLAYER].ai.None?
  {
    var monster := objects[id];
    var player := objects[PLAYER];
    assert id == PLAYER ==> !FarFromPlayer(id, objects);
    if (monster.x, monster.y) !in fov then Ok(objects)
    else if FarFromPlayer(id, objects) then MoveAway(id, player.x, player.y, m, objects)
    else if PlayerHasHp(objects) then
      match MutTwo(id, PLAYER, objects)
      case Err(p) => Err(p)
      case Ok((attacker, target)) => Ok(PutTwo(objects, id, PLAYER, attacker, Attack(attacker, target)))
    else Ok(objects)
  }

  /** The loop `for id in 0..objects.len()` running `ai_take_turn` for every
      object that has an AI component at the time its turn comes. */
  function AiLoop(m: Grid, objects: seq<Object>, fov: set<(int, int)>, id: nat): (r: Result<seq<Object>>)
    requires ValidMap(m) && PLAYER < |objects| && id <= |objects|
    ensures r.Ok? ==> |r.value| == |objects|
    ensures r.Ok? && objects[PLAYER].ai.None? ==> r.value[PLAYER].ai.None?
    ensures objects[PLAYER].ai.None? && r.Err? ==> r.panic != IndicesEqual
    // objects without an AI component are skipped
    ensures (forall k | id <= k < |objects| :: objects[k].ai.None?) ==> r == Ok(objects)
    decreases |objects| - id
  {
    if id == |objects| then Ok(objects)
    else if objects[id].ai.Some? then
      match AiTakeTurn(id, m, objects, fov)
      case Err(p) => Err(p)
      case Ok(next) => AiLoop(m, next, fov, id + 1)
    else AiLoop(m, objects, fov, id + 1)
  }

  datatype PlayerAction = TookTurn | DidntTakeTurn | Exit

  /** The monsters' half of the main loop: they act only when the player is
      alive and the player's action took a turn. The loop breaks on `Exit`
      before it gets here (src/main.rs:836-838), so the game never asks for
      `Exit`; the model, like the guard it follows, lets `Exit` through like
      `TookTurn`. */
  function MonstersTurn(action: PlayerAction, m: Grid, objects: seq<Object>, fov: set<(int, int)>): (r: Result<seq<Object>>)
    requires ValidMap(m) && PLAYER < |objects|
    ensures !objects[PLAYER].alive || action == DidntTakeTurn ==> r == Ok(objects)
    ensures objects[PLAYER].alive && action != DidntTakeTurn ==> r == AiLoop(m, objects, fov, 0)
    ensures r.Ok? ==> |r.value| == |objects|
    ensures r.Ok? && objects[PLAYER].ai.None? ==> r.value[PLAYER].ai.None?
    ensures objects[PLAYER].ai.None? && r.Err? ==> r.panic != IndicesEqual
  {
    if objects[PLAYER].alive && action != DidntTakeTurn then AiLoop(m, objects, fov, 0)
    else Ok(objects)
  }

  /** `player_move_or_attack(dx, dy)`: the first object with a fighter at the
      destination is merged with the player, leaving the arena as it is and
      returning the merged object; with no such object the player makes an
      arena move. */
  function PlayerMoveOrAttack(dx: int, dy: int, m: Grid, objects: seq<Object>): (r: Result<(seq<Object>, Option<Object>)>)
    requires ValidMap(m) && PLAYER < |objects|
    // a bump on a fighter other than the player merges and leaves the arena untouched
    ensures var t := FindFighterAt(objects, objects[PLAYER].x + dx, objects[PLAYER].y + dy, 0);
      t.Some? && t.value != PLAYER ==> r == Ok((objects, Some(Merge(objects[PLAYER], objects[t.value]))))
    // the aliasing check fails only on a bump into the player's own cell
    ensures (r.Err? && r.panic == IndicesEqual) <==> dx == 0 && dy == 0 && objects[PLAYER].fighter.Some?
    // otherwise the player walks
    ensures (forall k | 0 <= k < |objects| :: !FighterAt(objects[k], objects[PLAYER].x + dx, objects[PLAYER].y + dy)) ==>
      && (r.Ok? <==> MoveBy(PLAYER, dx, dy, m, objects).Ok?)
      && (r.Ok? ==> r.value == (MoveBy(PLAYER, dx, dy, m, objects).value, None))
  {
    var (x, y) := (objects[PLAYER].x + dx, objects[PLAYER].y + dy);
    match FindFighterAt(objects, x, y, 0)
    case Some(t) =>
      (match MutTwo(PLAYER, t, objects)
       case Err(p) => Err(p)
       case Ok((player, target)) => Ok((objects, Some(Merge(player, target)))))
    case None =>
      (match MoveBy(PLAYER, dx, dy, m, objects)
       case Err(p) => Err(p)
       case Ok(next) => Ok((next, None)))
  }

  /** `objects[PLAYER] = option.unwrap()` when the player's move returned an object. */
  function ReplacePlayer(objects: seq<Object>, merged: Option<Object>): (r: seq<Object>)
    requires PLAYER < |objects|
    ensures |r| == |objects|
    ensures forall k | 0 <= k < |objects| && k != PLAYER :: r[k] == objects[k]
    ensures merged.Some? ==> r[PLAYER] == merged.value
    ensures merged.None? ==> r == objects
  {
    if merged.Some? then objects[PLAYER := merged.value] else objects
  }

  /** The player's half of a turn: the bump, then the slot replacement. After
      a merge, the absorbed object is still in the arena, unchanged, and the
      player's slot holds the merge; the player's AI component is kept. */
  function PlayerTurn(dx: int, dy: int, m: Grid, objects: seq<Object>): (r: Result<seq<Object>>)
    requires ValidMap(m) && PLAYER < |objects|
    ensures r.Ok? ==> |r.value| == |objects| && r.value[PLAYER].ai == objects[PLAYER].ai
    ensures var t := FindFighterAt(objects, objects[PLAYER].x + dx, objects[PLAYER].y + dy, 0);
      t.Some? && t.value != PLAYER ==>
        && r.Ok?
        && r.value[PLAYER] == Merge(objects[PLAYER], objects[t.value])
        && r.value[t.value] == objects[t.value]
        && forall k | 0 <= k < |objects| && k != PLAYER :: r.value[k] == objects[k]
    // with no fighter at the destination the player makes an arena move
    ensures (forall k | 0 <= k < |objects| :: !FighterAt(objects[k], objects[PLAYER].x + dx, objects[PLAYER].y + dy)) ==>
      r == MoveBy(PLAYER, dx, dy, m, objects)
    ensures (r.Err? && r.panic == IndicesEqual) <==> dx == 0 && dy == 0 && objects[PLAYER].fighter.Some?
  {
    match PlayerMoveOrAttack(dx, dy, m, objects)
    case Err(p) => Err(p)
    case Ok((next, merged)) => Ok(ReplacePlayer(next, merged))
  }

  /** The four moves the arrow keys produce. */
  predicate ArrowMove(dx: int, dy: int) {
    (dx, dy) in {(0, -1), (0, 1), (-1, 0), (1, 0)}
  }

  /** The arena is never asked for the player's slot twice: a player without
      an AI component (as created) keeps none through its own move and
      through every monster turn, so neither half of a turn can fail the
      `mut_two` assertion. */
  lemma TurnNeverAliases(dx: int, dy: int, m: Grid, objects: seq<Object>, fov: set<(int, int)>)
    requires ValidMap(m) && PLAYER < |objects|
    requires ArrowMove(dx, dy)
    requires objects[PLAYER].ai.None?
    ensures var p := PlayerTurn(dx, dy, m, objects);
      && (p.Err? ==> p.panic != IndicesEqual)
      && (p.Ok? ==> p.value[PLAYER].ai.None?)
      && (p.Ok? ==> var t := MonstersTurn(TookTurn, m, p.value, fov);
                    t.Err? ==> t.panic != IndicesEqual)
  {
  }
}
