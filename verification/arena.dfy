/** The object arena: access to two distinct slots (`mut_two`), the blocking
    test (`is_blocked`) and arena-aware movement (the free `move_by`). */
module Arena {
  import opened Common
  import opened Tiles
  import opened Objects

  /** `mut_two(first, second, items)`: the two slots, in argument order.
      Equal indices fail the assertion; the split at the larger index and
      the slice accesses abort when that index is outside the slice. */
  function MutTwo<T>(first: nat, second: nat, items: seq<T>): (r: Result<(T, T)>)
    ensures r.Err? <==> first == second || first >= |items| || second >= |items|
    ensures first == second ==> r.Err? && r.panic == IndicesEqual
    ensures r.Err? && first != second ==> r.panic == IndexOutOfBounds
    ensures r.Ok? ==> r.value == (items[first], items[second])
  {
    if first == second then Err(IndicesEqual)
    else
      var split := Max(first, second);
      if split > |items| then Err(IndexOutOfBounds)
      else
        var lower := items[..split];
        var upper := items[split..];
        if |upper| == 0 then Err(IndexOutOfBounds)
        else if first < second then Ok((lower[first], upper[0]))
        else Ok((upper[0], lower[second]))
  }

  /** Writes back the two views `mut_two` handed out. */
  function PutTwo<T>(items: seq<T>, first: nat, second: nat, a: T, b: T): (r: seq<T>)
    requires first != second && first < |items| && second < |items|
    ensures |r| == |items| && r[first] == a && r[second] == b
    ensures forall k | 0 <= k < |items| && k != first && k != second :: r[k] == items[k]
    ensures a == items[first] ==> r == items[second := b]
  {
    items[first := a][second := b]
  }

  /** Writing back unchanged views restores the arena exactly. */
  lemma MutTwoThenPutTwo<T>(first: nat, second: nat, items: seq<T>)
    requires MutTwo(first, second, items).Ok?
    ensures var (a, b) := MutTwo(first, second, items).value;
            PutTwo(items, first, second, a, b) == items
  {
  }

  predicate BlocksAt(o: Object, x: int, y: int) {
    o.blocks && o.x == x && o.y == y
  }

  /** `objects.iter().any(|o| o.blocks && o.pos() == (x, y))`. */
  function AnyBlockingAt(objects: seq<Object>, x: int, y: int): (b: bool)
    ensures b <==> exists k | 0 <= k < |objects| :: BlocksAt(objects[k], x, y)
  {
    if |objects| == 0 then false
    else if BlocksAt(objects[0], x, y) then true
    else
      var rest := AnyBlockingAt(objects[1..], x, y);
      assert forall k | 1 <= k < |objects| :: objects[k] == objects[1..][k - 1];
      rest
  }

  /** Walls or a blocking object occupy (x, y). */
  ghost predicate Occupied(m: Grid, objects: seq<Object>, x: int, y: int)
    requires ValidMap(m)
  {
    !Floor(m, x, y) || exists k | 0 <= k < |objects| :: BlocksAt(objects[k], x, y)
  }

  /** `is_blocked`: the terrain first, then every blocking object. The map is
      indexed first, so a cell outside it aborts. */
  function IsBlocked(x: int, y: int, m: Grid, objects: seq<Object>): (r: Result<bool>)
    requires ValidMap(m)
    ensures r.Err? <==> !InBounds(x, y)
    ensures r.Err? ==> r.panic == IndexOutOfBounds
    ensures r.Ok? ==> (r.value <==> Occupied(m, objects, x, y))
  {
    if !InBounds(x, y) then Err(IndexOutOfBounds)
    else if m[x][y].blocked then Ok(true)
    else Ok(AnyBlockingAt(objects, x, y))
  }

  /** The free `move_by`: a no-op when the destination is occupied, otherwise
      only `objects[id]` moves, by exactly (dx, dy). */
  function MoveBy(id: nat, dx: int, dy: int, m: Grid, objects: seq<Object>): (r: Result<seq<Object>>)
    requires ValidMap(m) && id < |objects|
    ensures r.Err? <==> !InBounds(objects[id].x + dx, objects[id].y + dy)
    ensures r.Err? ==> r.panic == IndexOutOfBounds
    ensures r.Ok? && Occupied(m, objects, objects[id].x + dx, objects[id].y + dy) ==> r.value == objects
    ensures r.Ok? && !Occupied(m, objects, objects[id].x + dx, objects[id].y + dy) ==>
      && |r.value| == |objects|
      && r.value[id] == SetPos(objects[id], objects[id].x + dx, objects[id].y + dy)
      && forall k | 0 <= k < |objects| && k != id :: r.value[k] == objects[k]
  {
    var (x, y) := (objects[id].x, objects[id].y);
    match IsBlocked(x + dx, y + dy, m, objects)
    case Err(p) => Err(p)
    case Ok(blocked) =>
      if blocked then Ok(objects) else Ok(objects[id := SetPos(objects[id], x + dx, y + dy)])
  }

  /** No two blocking objects share a cell. */
  predicate NoStacking(objects: seq<Object>) {
    forall i, j | 0 <= i < j < |objects| ::
      objects[i].blocks && objects[j].blocks ==> (objects[i].x, objects[i].y) != (objects[j].x, objects[j].y)
  }

  /** Every blocking object stands on walkable terrain. */
  predicate BlockersOnFloor(m: Grid, objects: seq<Object>)
    requires ValidMap(m)
  {
    forall k | 0 <= k < |objects| :: objects[k].blocks ==> Floor(m, objects[k].x, objects[k].y)
  }

  /** Arena movement never stacks two blocking objects and never puts one on
      a wall. */
  lemma MoveByKeepsArenaInvariants(id: nat, dx: int, dy: int, m: Grid, objects: seq<Object>)
    requires ValidMap(m) && id < |objects|
    requires MoveBy(id, dx, dy, m, objects).Ok?
    ensures NoStacking(objects) ==> NoStacking(MoveBy(id, dx, dy, m, objects).value)
    ensures BlockersOnFloor(m, objects) ==> BlockersOnFloor(m, MoveBy(id, dx, dy, m, objects).value)
  {
    var r := MoveBy(id, dx, dy, m, objects).value;
    var (x, y) := (objects[id].x + dx, objects[id].y + dy);
    if !Occupied(m, objects, x, y) && NoStacking(objects) {
      forall i, j | 0 <= i < j < |r| && r[i].blocks && r[j].blocks
        ensures (r[i].x, r[i].y) != (r[j].x, r[j].y)
      {
        if i == id {
          assert !BlocksAt(objects[j], x, y);
        } else if j == id {
          assert !BlocksAt(objects[i], x, y);
        }
      }
    }
  }

  /** Where no blocking object stands at the destination, the arena move and
      `Object::move_by` agree. */
  lemma MoveByMatchesObjectMoveBy(id: nat, dx: int, dy: int, m: Grid, objects: seq<Object>)
    requires ValidMap(m) && id < |objects|
    requires !exists k | 0 <= k < |objects| :: BlocksAt(objects[k], objects[id].x + dx, objects[id].y + dy)
    ensures MoveBy(id, dx, dy, m, objects).Ok? <==> ObjectMoveBy(objects[id], dx, dy, m).Ok?
    ensures MoveBy(id, dx, dy, m, objects).Ok? ==>
      MoveBy(id, dx, dy, m, objects).value == objects[id := ObjectMoveBy(objects[id], dx, dy, m).value]
  {
  }

  /** `Object::move_by` walks onto a cell held by another blocking object,
      where the arena move refuses. */
  lemma ObjectMoveByIgnoresBlockers(id: nat, other: nat, dx: int, dy: int, m: Grid, objects: seq<Object>)
    requires ValidMap(m) && id < |objects| && other < |objects| && (dx, dy) != (0, 0)
    requires Floor(m, objects[id].x + dx, objects[id].y + dy)
    requires BlocksAt(objects[other], objects[id].x + dx, objects[id].y + dy)
    ensures MoveBy(id, dx, dy, m, objects) == Ok(objects)
    ensures ObjectMoveBy(objects[id], dx, dy, m) == Ok(SetPos(objects[id], objects[id].x + dx, objects[id].y + dy))
    ensures ObjectMoveBy(objects[id], dx, dy, m).value != objects[id]
  {
  }

  predicate FighterAt(o: Object, x: int, y: int) {
    o.fighter.Some? && o.x == x && o.y == y
  }

  /** `objects.iter().position(|o| o.fighter.is_some() && o.pos() == (x, y))`,
      searching from index `from`. */
  function FindFighterAt(objects: seq<Object>, x: int, y: int, from: nat): (r: Option<nat>)
    requires from <= |objects|
    ensures r.Some? ==> from <= r.value < |objects| && FighterAt(objects[r.value], x, y)
    ensures r.Some? ==> forall k | from <= k < r.value :: !FighterAt(objects[k], x, y)
    ensures r.None? ==> forall k | from <= k < |objects| :: !FighterAt(objects[k], x, y)
    decreases |objects| - from
  {
    if from == |objects| then None
    else if FighterAt(objects[from], x, y) then Some(from)
    else FindFighterAt(objects, x, y, from + 1)
  }
}
