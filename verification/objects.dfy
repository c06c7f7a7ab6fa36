/** Game objects (player, monsters, corpses) and the combat rules between two
    of them: `take_damage`, `attack`, the death callbacks and `merge`. */
module Objects {
  import opened Common
  import opened Tiles

  /** Which death callback a fighter runs when its hp drops to zero or below. */
  datatype DeathCallback = Player | Monster

  datatype Fighter = Fighter(maxHp: int, hp: int, defense: int, power: int, onDeath: DeathCallback)

  /** The (stateless) basic monster AI component. */
  datatype Ai = BasicAi

  datatype Object = Object(
    x: int, y: int,
    glyph: char,
    color: Color,
    name: string,
    blocks: bool,
    alive: bool,
    fighter: Option<Fighter>,
    ai: Option<Ai>)

  /** `Object::new`: a fresh object is not alive and has neither a fighter
      nor an AI component. */
  function NewObject(x: int, y: int, glyph: char, name: string, color: Color, blocks: bool): (o: Object)
    ensures o.x == x && o.y == y && o.blocks == blocks
    ensures o.glyph == glyph && o.name == name && o.color == color
    ensures !o.alive && o.fighter.None? && o.ai.None?
  {
    Object(x, y, glyph, color, name, blocks, false, None, None)
  }

  /** `Object::set_pos`. */
  function SetPos(o: Object, x: int, y: int): Object {
    o.(x := x, y := y)
  }

  /** The player as the game creates it before generating the map. */
  function NewPlayer(): (p: Object)
    ensures p.x == 0 && p.y == 0
    ensures p.glyph == '@' && p.name == "Player" && p.color == White
    ensures p.alive && p.blocks && p.ai.None?
    ensures p.fighter == Some(Fighter(30, 30, 2, 5, Player))
  {
    NewObject(0, 0, '@', "Player", White, true).(
      alive := true,
      fighter := Some(Fighter(30, 30, 2, 5, Player)))
  }

  /** `Object::move_by`: looks at the terrain only, ignoring other objects.
      Indexing the map outside its bounds aborts. */
  function ObjectMoveBy(o: Object, dx: int, dy: int, m: Grid): (r: Result<Object>)
    requires ValidMap(m)
    ensures r.Err? <==> !InBounds(o.x + dx, o.y + dy)
    ensures r.Err? ==> r.panic == IndexOutOfBounds
    ensures r.Ok? && Floor(m, o.x + dx, o.y + dy) ==> r.value == SetPos(o, o.x + dx, o.y + dy)
    ensures r.Ok? && !Floor(m, o.x + dx, o.y + dy) ==> r.value == o
  {
    if !InBounds(o.x + dx, o.y + dy) then Err(IndexOutOfBounds)
    else if !m[o.x + dx][o.y + dy].blocked then Ok(o.(x := o.x + dx, y := o.y + dy))
    else Ok(o)
  }

  /** `fighter.map_or(0, |f| f.<stat>)`: a missing fighter counts as zero. */
  function PowerOf(o: Object): int { if o.fighter.Some? then o.fighter.value.power else 0 }
  function DefenseOf(o: Object): int { if o.fighter.Some? then o.fighter.value.defense else 0 }
  function MaxHpOf(o: Object): int { if o.fighter.Some? then o.fighter.value.maxHp else 0 }
  function HpOf(o: Object): int { if o.fighter.Some? then o.fighter.value.hp else 0 }

  /** `player_death`: the player becomes a '%' corpse; nothing else changes. */
  function PlayerDeath(o: Object): (r: Object)
    ensures r.glyph == '%' && r.color == DarkRed
    ensures r.(glyph := o.glyph, color := o.color) == o
  {
    o.(glyph := '%', color := DarkRed)
  }

  /** `monster_death`: the monster becomes non-blocking remains without
      fighter or AI. */
  function MonsterDeath(o: Object): (r: Object)
    ensures r.x == o.x && r.y == o.y && r.alive == o.alive
    ensures r.glyph == 'x' && r.color == DarkRed && !r.blocks
    ensures r.fighter.None? && r.ai.None?
    ensures r.name == "remains of " + o.name
  {
    o.(glyph := 'x', color := DarkRed, blocks := false, fighter := None, ai := None,
       name := "remains of " + o.name)
  }

  /** `DeathCallback::callback`: either way the object keeps its place and
      liveness and turns dark red; only a monster loses its fighter, AI and
      blocking. */
  function Die(o: Object, cb: DeathCallback): (r: Object)
    ensures r.x == o.x && r.y == o.y && r.alive == o.alive && r.color == DarkRed
    ensures cb == Player ==> r.glyph == '%' && r.(glyph := o.glyph, color := o.color) == o
    ensures cb == Monster ==> r.glyph == 'x' && !r.blocks && r.fighter.None? && r.ai.None?
  {
    match cb
    case Player => PlayerDeath(o)
    case Monster => MonsterDeath(o)
  }

  /** The hp `take_damage` leaves: a positive amount is subtracted, any other
      amount sets hp to zero. */
  function HpAfterDamage(hp: int, damage: int): int {
    if damage > 0 then hp - damage else 0
  }

  /** `Object::take_damage`. */
  function TakeDamage(o: Object, damage: int): (r: Object)
    // position and the AI-less status are never touched
    ensures r.x == o.x && r.y == o.y
    ensures o.ai.None? ==> r.ai.None?
    // an object without a fighter is unaffected
    ensures o.fighter.None? ==> r == o
    // a survivor loses exactly `damage` hp and nothing else
    ensures o.fighter.Some? && damage > 0 && o.fighter.value.hp - damage > 0 ==>
      r == o.(fighter := Some(o.fighter.value.(hp := o.fighter.value.hp - damage)))
    // a non-positive amount zeroes hp, which kills
    ensures o.fighter.Some? && damage <= 0 ==> !r.alive
    ensures o.fighter.Some? && damage > 0 && o.fighter.value.hp - damage <= 0 ==> !r.alive
    // a dying monster turns into remains
    ensures o.fighter.Some? && o.fighter.value.onDeath == Monster && HpAfterDamage(o.fighter.value.hp, damage) <= 0 ==>
      && r.glyph == 'x' && r.color == DarkRed && !r.blocks
      && r.fighter.None? && r.ai.None? && r.name == "remains of " + o.name
    // a dying player keeps everything but glyph, colour, hp and liveness
    ensures o.fighter.Some? && o.fighter.value.onDeath == Player && HpAfterDamage(o.fighter.value.hp, damage) <= 0 ==>
      r == o.(alive := false, glyph := '%', color := DarkRed,
              fighter := Some(o.fighter.value.(hp := HpAfterDamage(o.fighter.value.hp, damage))))
    // hp never rises for a fighter that still has hp left
    ensures o.fighter.Some? && o.fighter.value.hp >= 0 && r.fighter.Some? ==> r.fighter.value.hp <= o.fighter.value.hp
  {
    match o.fighter
    case None => o
    case Some(f) =>
      var hurt := o.(fighter := Some(f.(hp := HpAfterDamage(f.hp, damage))));
      if HpAfterDamage(f.hp, damage) <= 0 then Die(hurt.(alive := false), f.onDeath) else hurt
  }

  /** The damage formula of `attack`. */
  function AttackDamage(attacker: Object, target: Object): int {
    PowerOf(attacker) - DefenseOf(target)
  }

  /** `Object::attack`, returning the target afterwards; the attacker itself
      is never modified. */
  function Attack(attacker: Object, target: Object): (r: Object)
    ensures AttackDamage(attacker, target) <= 0 ==> r == target
    ensures AttackDamage(attacker, target) > 0 ==> r == TakeDamage(target, AttackDamage(attacker, target))
    ensures r.x == target.x && r.y == target.y
    ensures target.ai.None? ==> r.ai.None?
    ensures target.fighter.Some? && target.fighter.value.hp - AttackDamage(attacker, target) > 0 ==>
      r.fighter.Some? && r.alive == target.alive &&
      r.fighter.value.hp == target.fighter.value.hp - Max(AttackDamage(attacker, target), 0)
    ensures (target.fighter.Some? && AttackDamage(attacker, target) > 0 &&
             target.fighter.value.hp - AttackDamage(attacker, target) <= 0) ==> !r.alive
  {
    var damage := AttackDamage(attacker, target);
    if damage > 0 then TakeDamage(target, damage) else target
  }

  /** For a fighter, being alive and having hp left go together. */
  predicate LifeConsistent(o: Object) {
    o.fighter.Some? ==> (o.alive <==> o.fighter.value.hp > 0)
  }

  /** `take_damage` keeps liveness and hp in step. */
  lemma TakeDamageKeepsLifeConsistent(o: Object, damage: int)
    requires LifeConsistent(o)
    ensures LifeConsistent(TakeDamage(o, damage))
  {
  }

  /** Remains left by a monster cannot be hurt again. */
  lemma RemainsIgnoreDamage(o: Object, damage: int, more: int)
    requires o.fighter.Some? && o.fighter.value.onDeath == Monster
    requires HpAfterDamage(o.fighter.value.hp, damage) <= 0
    ensures TakeDamage(TakeDamage(o, damage), more) == TakeDamage(o, damage)
  {
  }

  /** The examples of the combat formula: power 5 against defense 0 takes 5
      hp, power 3 against defense 2 takes 1, power 2 against defense 5 does
      nothing. */
  lemma AttackExamples()
    ensures var orc := Object(0, 0, 'o', DesaturatedGreen, "Orc", true, true, Some(Fighter(10, 10, 0, 3, Monster)), Some(BasicAi));
            var player := NewPlayer();
            && Attack(player, orc).fighter == Some(Fighter(10, 5, 0, 3, Monster))
            && Attack(orc.(fighter := Some(Fighter(10, 10, 0, 3, Monster))), player.(fighter := Some(Fighter(30, 30, 2, 5, Player)))).fighter
                 == Some(Fighter(30, 29, 2, 5, Player))
            && Attack(orc.(fighter := Some(Fighter(10, 10, 0, 2, Monster))), orc.(fighter := Some(Fighter(10, 10, 5, 3, Monster))))
                 == orc.(fighter := Some(Fighter(10, 10, 5, 3, Monster)))
  {
  }

  /** `(s as f32 * 0.75) as i32`: three quarters of `s`, truncated toward zero.
      The float computation is exact for every sum below 2^22 in magnitude. */
  function ThreeQuarters(s: int): (r: int)
    ensures s >= 0 ==> 0 <= 4 * r <= 3 * s < 4 * r + 4
    ensures s < 0 ==> 4 * r - 4 < 3 * s <= 4 * r <= 0
  {
    if s >= 0 then (3 * s) / 4 else -((3 * -s) / 4)
  }

  lemma ThreeQuartersMonotone(a: int, b: int)
    requires a <= b
    ensures ThreeQuarters(a) <= ThreeQuarters(b)
  {
  }

  /** `Object::merge`: a new object with `self`'s position, glyph and
      blocking, the target's colour, both names joined by a space, and each
      fighter stat three quarters of the two inputs' sum. hp is not clamped
      to max_hp. The new fighter dies like a player, the AI is `self`'s, and
      the object is alive. */
  function Merge(self: Object, target: Object): (r: Object)
    ensures r.x == self.x && r.y == self.y && r.glyph == self.glyph && r.blocks == self.blocks
    ensures r.color == target.color
    ensures r.name == self.name + " " + target.name
    ensures r.fighter.Some? && r.fighter.value.onDeath == Player
    ensures var f := r.fighter.value;
      && f.defense == ThreeQuarters(DefenseOf(self) + DefenseOf(target))
      && f.power == ThreeQuarters(PowerOf(self) + PowerOf(target))
      && f.maxHp == ThreeQuarters(MaxHpOf(self) + MaxHpOf(target))
      && f.hp == ThreeQuarters(HpOf(self) + HpOf(target))
    ensures r.ai == self.ai && r.alive
  {
    var defense := ThreeQuarters(DefenseOf(self) + DefenseOf(target));
    var power := ThreeQuarters(PowerOf(self) + PowerOf(target));
    var maxHp := ThreeQuarters(MaxHpOf(self) + MaxHpOf(target));
    var hp := ThreeQuarters(HpOf(self) + HpOf(target));
    var o := NewObject(self.x, self.y, self.glyph, self.name + " " + target.name, target.color, self.blocks);
    o.(fighter := Some(Fighter(maxHp, hp, defense, power, Player)), ai := self.ai, alive := true)
  }

  /** The merge example: the starting player (power 5, defense 2, 30/30)
      absorbing a fighter with power 3, defense 1, 15/15 gets power 6,
      defense 2 and 33/33 hp. */
  lemma MergeExample(target: Object)
    requires target.fighter == Some(Fighter(15, 15, 1, 3, Monster))
    ensures Merge(NewPlayer(), target).fighter == Some(Fighter(33, 33, 2, 6, Player))
  {
  }

  /** Although merge does not clamp hp, it cannot overheal: if both inputs
      have 0 <= hp <= max_hp, so does the result, and a merged pair of living
      fighters is a living fighter. */
  lemma MergeKeepsHpWithinMax(self: Object, target: Object)
    requires self.fighter.Some? && target.fighter.Some?
    requires 0 <= self.fighter.value.hp <= self.fighter.value.maxHp
    requires 0 <= target.fighter.value.hp <= target.fighter.value.maxHp
    ensures var f := Merge(self, target).fighter.value; 0 <= f.hp <= f.maxHp
    ensures self.fighter.value.hp > 0 && target.fighter.value.hp > 0 ==> LifeConsistent(Merge(self, target))
  {
    ThreeQuartersMonotone(HpOf(self) + HpOf(target), MaxHpOf(self) + MaxHpOf(target));
  }
}
