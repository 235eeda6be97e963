/**
 * The state of a battle (day15.rb: `Map` with its `@map`, `@goblins` and
 * `@elves`, and the units' `hp`, `ap` and coordinates) as a value, what a
 * unit looks at before acting (`enemies`, `in_range`, `should_attack?`,
 * `should_move?`), and what its actions do (`move`, `attack`,
 * `remove_dead`, `set_elf_ap`).
 */
module Combat {
  import opened Wrappers
  import opened Ordering
  import opened Grid
  import opened Pathfinding

  /** `DEFAULT_HP` and `DEFAULT_AP`. */
  const DefaultHp: int := 200
  const DefaultAp: int := 3

  /** A goblin or an elf: its faction (its Ruby class), hit points, attack power and square. */
  datatype Unit = Unit(faction: Faction, hp: int, ap: int, pos: Coord)

  /**
   * A `Map`: the squares, every unit ever placed (a dead unit keeps its
   * record, as the Ruby object outlives its removal), and the two sets of
   * living units.
   */
  datatype MapState = MapState(grid: Board, units: map<UnitId, Unit>, goblins: set<UnitId>, elves: set<UnitId>)

  function Living(s: MapState): set<UnitId> {
    s.goblins + s.elves
  }

  /** The square of unit `id` holds it. */
  ghost predicate Placed(s: MapState, id: UnitId)
    requires id in s.units
  {
    InBounds(s.grid, s.units[id].pos) && At(s.grid, s.units[id].pos) == Occupied(id)
  }

  /** The unit the square `c` holds is alive and stands on `c`. */
  ghost predicate Holds(s: MapState, c: Coord)
    requires InBounds(s.grid, c) && At(s.grid, c).Occupied?
  {
    var id := At(s.grid, c).id;
    id in Living(s) && id in s.units && s.units[id].pos == c
  }

  /**
   * What every method of `Map` keeps: the map is walled in, the faction
   * sets hold exactly the units with hit points left, each of the right
   * class, every living unit's square holds it, and every unit on the map
   * is a living one standing there.
   */
  ghost predicate Consistent(s: MapState) {
    && Bordered(s.grid)
    && s.goblins !! s.elves
    && (forall id {:trigger id in s.goblins} | id in s.goblins :: id in s.units && s.units[id].faction == Goblin)
    && (forall id {:trigger id in s.elves} | id in s.elves :: id in s.units && s.units[id].faction == Elf)
    && (forall id {:trigger id in s.units} | id in s.units :: id in Living(s) <==> s.units[id].hp > 0)
    && (forall id {:trigger id in Living(s)} | id in Living(s) :: id in s.units && Placed(s, id))
    && (forall c {:trigger At(s.grid, c)} | InBounds(s.grid, c) && At(s.grid, c).Occupied? :: Holds(s, c))
  }

  /** `combat_ended?`: one side has no living unit left. */
  predicate CombatEnded(s: MapState) {
    s.goblins == {} || s.elves == {}
  }

  lemma LivingIsPlaced(s: MapState, id: UnitId)
    requires Consistent(s) && id in Living(s)
    ensures id in s.units && Placed(s, id) && Interior(s.grid, s.units[id].pos)
    ensures s.units[id].hp > 0
  {
    NonWallIsInterior(s.grid, s.units[id].pos);
  }

  /** No two living units share a square. */
  lemma PositionsDistinct(s: MapState, a: UnitId, b: UnitId)
    requires Consistent(s) && a in Living(s) && b in Living(s) && a != b
    ensures s.units[a].pos != s.units[b].pos
  {
    LivingIsPlaced(s, a);
    LivingIsPlaced(s, b);
  }

  lemma LivingAreInterior(s: MapState)
    requires Consistent(s)
    ensures forall id {:trigger id in Living(s)} | id in Living(s) :: id in s.units && Interior(s.grid, s.units[id].pos)
  {
    forall id | id in Living(s) ensures id in s.units && Interior(s.grid, s.units[id].pos) {
      LivingIsPlaced(s, id);
    }
  }

  // ---------------------------------------------------------------------
  // What a unit looks at

  /** The living units of the other side: `elves` for a goblin, `goblins` for an elf. */
  function Opponents(s: MapState, f: Faction): set<UnitId> {
    if f == Goblin then s.elves else s.goblins
  }

  /** The key `enemies` sorts by: `[hp, coordinate.reverse]`. */
  function EnemyKey(u: Unit): (k: seq<int>)
    ensures |k| == 3
  {
    [u.hp] + PosKey(u.pos)
  }

  /** Enemy keys order by hit points, then by reading order of the square. */
  lemma EnemyKeyOrder(u: Unit, v: Unit)
    ensures LexLess(EnemyKey(u), EnemyKey(v)) <==>
              u.hp < v.hp || (u.hp == v.hp && ReadingBefore(u.pos, v.pos))
    ensures EnemyKey(u) == EnemyKey(v) ==> u.hp == v.hp && u.pos == v.pos
  {
    assert EnemyKey(u)[1..] == PosKey(u.pos) && EnemyKey(v)[1..] == PosKey(v.pos);
    ReadingOrderIsKeyOrder(u.pos, v.pos);
  }

  /** The units on the non-wall neighbours of `id`'s square that belong to the other side. */
  function AdjacentEnemies(s: MapState, id: UnitId): (r: set<UnitId>)
    requires Consistent(s) && id in Living(s)
    ensures forall e {:trigger e in r} :: e in r <==>
              e in Opponents(s, s.units[id].faction) && Adjacent(s.units[id].pos, s.units[e].pos)
  {
    LivingIsPlaced(s, id);
    var u := s.units[id];
    var cs := Adjacents(s.grid, u.pos);
    var r := set c {:trigger c in cs} | c in cs && At(s.grid, c).Occupied?
                     && At(s.grid, c).id in s.units && s.units[At(s.grid, c).id].faction != u.faction
                   :: At(s.grid, c).id;
    forall e | e in Opponents(s, u.faction) && Adjacent(u.pos, s.units[e].pos) ensures e in r {
      LivingIsPlaced(s, e);
      assert s.units[e].pos in Adjacents(s.grid, u.pos);
    }
    r
  }

  function EnemyKeys(s: MapState, es: set<UnitId>): map<UnitId, seq<int>>
    requires es <= s.units.Keys
  {
    map e | e in es :: EnemyKey(s.units[e])
  }

  /**
   * `enemies(unit)`: the adjacent units of the other side, weakest first,
   * ties in reading order of their squares.
   */
  function Enemies(s: MapState, id: UnitId): (r: seq<UnitId>)
    requires Consistent(s) && id in Living(s)
    ensures forall e {:trigger e in r} :: e in r <==>
              e in Opponents(s, s.units[id].faction) && Adjacent(s.units[id].pos, s.units[e].pos)
    ensures Ordered(EnemyKeys(s, AdjacentEnemies(s, id)), r)
  {
    var es := AdjacentEnemies(s, id);
    var key := EnemyKeys(s, es);
    forall a, b | a in es && b in es && a != b ensures key[a] != key[b] {
      PositionsDistinct(s, a, b);
      EnemyKeyOrder(s.units[a], s.units[b]);
    }
    SortBy(key, es, 3)
  }

  /** The unit `attack` strikes, `enemies(unit).first`, has the fewest hit points, then comes first in reading order. */
  lemma TargetIsWeakest(s: MapState, id: UnitId)
    requires Consistent(s) && id in Living(s) && Enemies(s, id) != []
    ensures forall e | e in Enemies(s, id) && e != Enemies(s, id)[0] ::
              var t, u := s.units[Enemies(s, id)[0]], s.units[e];
              t.hp < u.hp || (t.hp == u.hp && ReadingBefore(t.pos, u.pos))
  {
    var r := Enemies(s, id);
    var key := EnemyKeys(s, AdjacentEnemies(s, id));
    forall e | e in r && e != r[0]
      ensures s.units[r[0]].hp < s.units[e].hp ||
              (s.units[r[0]].hp == s.units[e].hp && ReadingBefore(s.units[r[0]].pos, s.units[e].pos))
    {
      assert r == [r[0]] + r[1..];
      assert e in r[1..];
      EnemyKeyOrder(s.units[r[0]], s.units[e]);
    }
  }

  /** `should_attack?`: `enemies(unit).any?`. */
  predicate ShouldAttack(s: MapState, id: UnitId)
    requires Consistent(s) && id in Living(s)
  {
    Enemies(s, id) != []
  }

  lemma ShouldAttackIffEnemyAdjacent(s: MapState, id: UnitId)
    requires Consistent(s) && id in Living(s)
    ensures ShouldAttack(s, id) <==>
              exists e :: e in Opponents(s, s.units[id].faction) && Adjacent(s.units[id].pos, s.units[e].pos)
  {
    if e :| e in Opponents(s, s.units[id].faction) && Adjacent(s.units[id].pos, s.units[e].pos) {
      assert e in Enemies(s, id);
    }
    if ShouldAttack(s, id) {
      assert Enemies(s, id)[0] in Enemies(s, id);
    }
  }

  /**
   * `in_range(unit_klass)`: the empty squares next to a living unit of the
   * other side (Ruby lists them without repeats; the order it lists them
   * in does not change what `next_move` picks).
   */
  function InRange(s: MapState, f: Faction): (r: set<Coord>)
    requires Consistent(s)
    ensures forall c {:trigger c in r} :: c in r <==>
              Open(s.grid, c) && exists e :: e in Opponents(s, f) && Adjacent(s.units[e].pos, c)
  {
    LivingAreInterior(s);
    var r := set e, c | e in Opponents(s, f) && c in EmptyAdjacents(s.grid, s.units[e].pos) :: c;
    assert forall c {:trigger c in r} :: c in r <==>
             Open(s.grid, c) && exists e :: e in Opponents(s, f) && Adjacent(s.units[e].pos, c) by {
      forall c | Open(s.grid, c) && exists e :: e in Opponents(s, f) && Adjacent(s.units[e].pos, c)
        ensures c in r
      {
        var e :| e in Opponents(s, f) && Adjacent(s.units[e].pos, c);
        assert c in EmptyAdjacents(s.grid, s.units[e].pos);
      }
    }
    r
  }

  /** `should_move?`, with its three tests in order. */
  predicate ShouldMove(s: MapState, id: UnitId)
    requires Consistent(s) && id in Living(s)
  {
    LivingIsPlaced(s, id);
    var u := s.units[id];
    if ShouldAttack(s, id) then false
    else if InRange(s, u.faction) == {} then false
    else
      var adjacentCells := set c | c in Adjacents(s.grid, u.pos);
      var enemyCells := set e | e in Opponents(s, u.faction) :: s.units[e].pos;
      adjacentCells * enemyCells == {}
  }

  /**
   * The last test of `should_move?` never decides: a unit moves exactly
   * when no enemy is adjacent and some square is in range.
   */
  lemma ShouldMoveIff(s: MapState, id: UnitId)
    requires Consistent(s) && id in Living(s)
    ensures ShouldMove(s, id) <==> !ShouldAttack(s, id) && InRange(s, s.units[id].faction) != {}
  {
    LivingIsPlaced(s, id);
    var u := s.units[id];
    if !ShouldAttack(s, id) && InRange(s, u.faction) != {} {
      var adjacentCells := set c | c in Adjacents(s.grid, u.pos);
      var enemyCells := set e | e in Opponents(s, u.faction) :: s.units[e].pos;
      forall e | e in Opponents(s, u.faction) ensures s.units[e].pos !in adjacentCells {
        assert e !in Enemies(s, id);
      }
      assert adjacentCells * enemyCells == {};
    }
  }

  // ---------------------------------------------------------------------
  // What a unit does

  /** Writing a square that is not a wall, with something that is not a wall, keeps the map walled in. */
  lemma SetAtKeepsBordered(g: Board, c: Coord, cell: Cell)
    requires Bordered(g) && InBounds(g, c) && At(g, c) != Wall && cell != Wall
    ensures Bordered(SetAt(g, c, cell))
  {
    NonWallIsInterior(g, c);
    var r := SetAt(g, c, cell);
    forall y, x | 0 <= y < |r| && 0 <= x < |r[y]| && (y == 0 || y == |r| - 1 || x == 0 || x == |r[y]| - 1)
      ensures r[y][x] == Wall
    {
      assert At(r, Coord(x, y)) == At(g, Coord(x, y));
    }
  }

  /**
   * `move(unit, target)`: the unit's old square becomes empty, `target`
   * holds the unit, the unit stands on `target`, and nothing else changes.
   */
  function Moved(s: MapState, id: UnitId, target: Coord): (r: MapState)
    requires id in s.units && InBounds(s.grid, s.units[id].pos) && InBounds(s.grid, target)
    ensures r.goblins == s.goblins && r.elves == s.elves && r.units.Keys == s.units.Keys
    ensures r.units[id] == s.units[id].(pos := target)
    ensures forall other | other in s.units && other != id :: r.units[other] == s.units[other]
    ensures |r.grid| == |s.grid| && forall y | 0 <= y < |s.grid| :: |r.grid[y]| == |s.grid[y]|
    ensures At(r.grid, target) == Occupied(id)
    ensures target != s.units[id].pos ==> At(r.grid, s.units[id].pos) == Empty
    ensures forall c {:trigger At(r.grid, c)} | InBounds(s.grid, c) && c != target && c != s.units[id].pos ::
              At(r.grid, c) == At(s.grid, c)
  {
    var u := s.units[id];
    var g := SetAt(s.grid, u.pos, Empty);
    s.(grid := SetAt(g, target, Occupied(id)), units := s.units[id := u.(pos := target)])
  }

  /** A living unit moving onto an empty square keeps the state consistent. */
  lemma MovedConsistent(s: MapState, id: UnitId, target: Coord)
    requires Consistent(s) && id in Living(s) && Open(s.grid, target)
    ensures Consistent(Moved(s, id, target))
  {
    LivingIsPlaced(s, id);
    var u := s.units[id];
    var r := Moved(s, id, target);
    SetAtKeepsBordered(s.grid, u.pos, Empty);
    SetAtKeepsBordered(SetAt(s.grid, u.pos, Empty), target, Occupied(id));
    forall other | other in Living(r) ensures other in r.units && Placed(r, other) {
      if other != id {
        LivingIsPlaced(s, other);
        PositionsDistinct(s, id, other);
      }
    }
    forall c | InBounds(r.grid, c) && At(r.grid, c).Occupied? ensures Holds(r, c) {
      if c != target && c != u.pos {
        assert At(s.grid, c).Occupied?;
        assert Holds(s, c);
      }
    }
  }

  /**
   * `remove_dead(unit)`: the unit's square becomes empty and the unit
   * leaves the set of its side; nothing else changes.
   */
  function Removed(s: MapState, id: UnitId): (r: MapState)
    requires id in s.units && InBounds(s.grid, s.units[id].pos)
    ensures r.units == s.units
    ensures s.units[id].faction == Goblin ==> r.goblins == s.goblins - {id} && r.elves == s.elves
    ensures s.units[id].faction == Elf ==> r.elves == s.elves - {id} && r.goblins == s.goblins
    ensures |r.grid| == |s.grid| && forall y | 0 <= y < |s.grid| :: |r.grid[y]| == |s.grid[y]|
    ensures At(r.grid, s.units[id].pos) == Empty
    ensures forall c {:trigger At(r.grid, c)} | InBounds(s.grid, c) && c != s.units[id].pos :: At(r.grid, c) == At(s.grid, c)
  {
    var u := s.units[id];
    var g := SetAt(s.grid, u.pos, Empty);
    match u.faction
    case Goblin => s.(grid := g, goblins := s.goblins - {id})
    case Elf => s.(grid := g, elves := s.elves - {id})
  }

  /**
   * `attack(source, target)`: the target loses exactly the source's
   * attack power in hit points, and at 0 or below it is removed from the
   * map and from its side.
   */
  function Attacked(s: MapState, source: UnitId, target: UnitId): (r: MapState)
    requires source in s.units && target in s.units && InBounds(s.grid, s.units[target].pos)
    ensures r.units.Keys == s.units.Keys
    ensures r.units[target] == s.units[target].(hp := s.units[target].hp - s.units[source].ap)
    ensures forall other | other in s.units && other != target :: r.units[other] == s.units[other]
    ensures |r.grid| == |s.grid| && forall y | 0 <= y < |s.grid| :: |r.grid[y]| == |s.grid[y]|
    ensures r.units[target].hp > 0 ==> r.grid == s.grid && r.goblins == s.goblins && r.elves == s.elves
    ensures r.units[target].hp <= 0 ==>
              && At(r.grid, s.units[target].pos) == Empty
              && (forall c {:trigger At(r.grid, c)} | InBounds(s.grid, c) && c != s.units[target].pos ::
                    At(r.grid, c) == At(s.grid, c))
              && r.goblins == (if s.units[target].faction == Goblin then s.goblins - {target} else s.goblins)
              && r.elves == (if s.units[target].faction == Elf then s.elves - {target} else s.elves)
  {
    var t := s.units[target];
    var hit := s.(units := s.units[target := t.(hp := t.hp - s.units[source].ap)]);
    if hit.units[target].hp <= 0 then Removed(hit, target) else hit
  }

  lemma AttackedConsistent(s: MapState, source: UnitId, target: UnitId)
    requires Consistent(s) && source in s.units && target in Living(s)
    ensures InBounds(s.grid, s.units[target].pos)
    ensures Consistent(Attacked(s, source, target))
  {
    LivingIsPlaced(s, target);
    if s.units[target].hp - s.units[source].ap <= 0 {
      KilledConsistent(s, source, target);
    } else {
      WoundedConsistent(s, source, target);
    }
  }

  lemma WoundedConsistent(s: MapState, source: UnitId, target: UnitId)
    requires Consistent(s) && source in s.units && target in Living(s)
    requires InBounds(s.grid, s.units[target].pos) && s.units[target].hp - s.units[source].ap > 0
    ensures Consistent(Attacked(s, source, target))
  {
    var r := Attacked(s, source, target);
    forall c | InBounds(r.grid, c) && At(r.grid, c).Occupied? ensures Holds(r, c) {
      assert Holds(s, c);
    }
  }

  lemma KilledConsistent(s: MapState, source: UnitId, target: UnitId)
    requires Consistent(s) && source in s.units && target in Living(s)
    requires InBounds(s.grid, s.units[target].pos) && s.units[target].hp - s.units[source].ap <= 0
    ensures Consistent(Attacked(s, source, target))
  {
    var t := s.units[target];
    var r := Attacked(s, source, target);
    LivingIsPlaced(s, target);
    SetAtKeepsBordered(s.grid, t.pos, Empty);
    forall other | other in Living(r) ensures other in r.units && Placed(r, other) {
      LivingIsPlaced(s, other);
      PositionsDistinct(s, target, other);
    }
    forall c | InBounds(r.grid, c) && At(r.grid, c).Occupied? ensures Holds(r, c) {
      assert At(s.grid, c).Occupied?;
      assert Holds(s, c);
    }
  }

  /**
   * `set_elf_ap(ap:)`: every living elf gets attack power `ap`; nothing
   * else changes.
   */
  function WithElfAp(s: MapState, ap: int): (r: MapState)
    ensures r.grid == s.grid && r.goblins == s.goblins && r.elves == s.elves && r.units.Keys == s.units.Keys
    ensures forall id | id in s.elves && id in s.units :: r.units[id].ap == ap
    ensures forall id | id in s.units :: r.units[id].(ap := s.units[id].ap) == s.units[id]
    ensures forall id | id in s.units && id !in s.elves :: r.units[id] == s.units[id]
  {
    s.(units := map id | id in s.units :: if id in s.elves then s.units[id].(ap := ap) else s.units[id])
  }

  lemma WithElfApConsistent(s: MapState, ap: int)
    requires Consistent(s)
    ensures Consistent(WithElfAp(s, ap))
  {
    var r := WithElfAp(s, ap);
    forall c | InBounds(r.grid, c) && At(r.grid, c).Occupied? ensures Holds(r, c) {
      assert Holds(s, c);
    }
  }

  // ---------------------------------------------------------------------
  // Where a unit moves

  /** The answers of `next_move_between(from, t)` other than `nil`, for the squares `t` of `targets`. */
  ghost function Answers(g: Board, from: Coord, targets: set<Coord>): (r: set<(Coord, nat)>)
    requires Bordered(g) && Interior(g, from)
    ensures forall p {:trigger p in r} :: p in r <==> exists t :: t in targets && BestFirstStep(g, from, t) == Some(p)
  {
    set t | t in targets && BestFirstStep(g, from, t).Some? :: BestFirstStep(g, from, t).value
  }

  /**
   * `next_move` collects, for every square in range, the answer of
   * `next_move_between`: a first step and the distance.
   */
  ghost function Targets(s: MapState, id: UnitId): (r: set<(Coord, nat)>)
    requires Consistent(s) && id in Living(s)
    ensures forall p {:trigger p in r} :: p in r <==>
              exists t :: t in InRange(s, s.units[id].faction) && BestFirstStep(s.grid, s.units[id].pos, t) == Some(p)
  {
    LivingIsPlaced(s, id);
    Answers(s.grid, s.units[id].pos, InRange(s, s.units[id].faction))
  }

  /** The key `next_move` minimises: `[dist, target.reverse]`. */
  function MoveKey(p: (Coord, nat)): (k: seq<int>)
    ensures |k| == 3
  {
    [p.1 as int] + PosKey(p.0)
  }

  /** A shorter path wins, then the first step that comes first in reading order. */
  predicate MoveBefore(p: (Coord, nat), q: (Coord, nat)) {
    p.1 < q.1 || (p.1 == q.1 && ReadingBefore(p.0, q.0))
  }

  lemma MoveKeyOrder(p: (Coord, nat), q: (Coord, nat))
    ensures LexLess(MoveKey(p), MoveKey(q)) <==> MoveBefore(p, q)
    ensures MoveKey(p) == MoveKey(q) ==> p == q
  {
    assert MoveKey(p)[1..] == PosKey(p.0) && MoveKey(q)[1..] == PosKey(q.0);
    ReadingOrderIsKeyOrder(p.0, q.0);
  }

  /** `p` is what `min_by` picks from `ps`. */
  predicate IsLeastMove(ps: set<(Coord, nat)>, p: (Coord, nat)) {
    p in ps && forall q {:trigger q in ps} | q in ps && q != p :: MoveBefore(p, q)
  }

  /** `MoveBefore` is a strict total order on (first step, distance) pairs. */
  lemma MoveBeforeIsStrictTotal(p: (Coord, nat), q: (Coord, nat), r: (Coord, nat))
    ensures !MoveBefore(p, p)
    ensures MoveBefore(p, q) ==> !MoveBefore(q, p)
    ensures MoveBefore(p, q) && MoveBefore(q, r) ==> MoveBefore(p, r)
    ensures p != q ==> MoveBefore(p, q) || MoveBefore(q, p)
  {
    ReadingOrderIsStrictTotal(p.0, q.0, r.0);
  }

  lemma LeastMoveIsUnique(ps: set<(Coord, nat)>, p: (Coord, nat), q: (Coord, nat))
    requires IsLeastMove(ps, p) && IsLeastMove(ps, q)
    ensures p == q
  {
    if p != q {
      ReadingOrderIsStrictTotal(p.0, q.0, p.0);
    }
  }

  lemma LeastMoveExists(ps: set<(Coord, nat)>)
    requires ps != {}
    ensures exists p :: IsLeastMove(ps, p)
  {
    var key := map p | p in ps :: MoveKey(p);
    forall a, b | a in ps && b in ps && a != b ensures key[a] != key[b] {
      MoveKeyOrder(a, b);
    }
    LeastExists(key, ps, 3);
    var m :| Least(key, ps, m);
    forall q | q in ps && q != m ensures MoveBefore(m, q) {
      MoveKeyOrder(m, q);
    }
    assert IsLeastMove(ps, m);
  }

  /**
   * `next_move(unit)`: `nil` when no square in range can be reached, and
   * otherwise the first step of the pair with the shortest distance, ties
   * going to the first step that comes first in reading order.
   */
  ghost function NextMoveSpec(s: MapState, id: UnitId): (r: Option<Coord>)
    requires Consistent(s) && id in Living(s)
    ensures r.None? <==> Targets(s, id) == {}
    ensures r.Some? ==> exists p :: IsLeastMove(Targets(s, id), p) && p.0 == r.value
  {
    var ps := Targets(s, id);
    if ps == {} then None
    else
      LeastMoveExists(ps);
      var p :| IsLeastMove(ps, p);
      Some(p.0)
  }

  /** A unit finds no move exactly when no square in range can be reached from it. */
  lemma NoMoveIffUnreachable(s: MapState, id: UnitId)
    requires Consistent(s) && id in Living(s)
    ensures Interior(s.grid, s.units[id].pos)
    ensures NextMoveSpec(s, id).None? <==>
              forall t | t in InRange(s, s.units[id].faction) :: NoPath(s.grid, s.units[id].pos, t)
  {
    LivingIsPlaced(s, id);
    var u := s.units[id];
    if t :| t in InRange(s, u.faction) && !NoPath(s.grid, u.pos, t) {
      assert BestFirstStep(s.grid, u.pos, t).value in Targets(s, id);
    }
    if p :| p in Targets(s, id) {
      var t :| t in InRange(s, u.faction) && BestFirstStep(s.grid, u.pos, t) == Some(p);
      assert !NoPath(s.grid, u.pos, t);
    }
  }

  /** The move chosen is onto an empty square next to the unit, on a shortest path to a square in range. */
  lemma NextMoveIsAStep(s: MapState, id: UnitId)
    requires Consistent(s) && id in Living(s) && NextMoveSpec(s, id).Some?
    ensures Interior(s.grid, s.units[id].pos)
    ensures Adjacent(s.units[id].pos, NextMoveSpec(s, id).value) && Open(s.grid, NextMoveSpec(s, id).value)
  {
    LivingIsPlaced(s, id);
    var u := s.units[id];
    var p :| IsLeastMove(Targets(s, id), p) && p.0 == NextMoveSpec(s, id).value;
    var t :| t in InRange(s, u.faction) && BestFirstStep(s.grid, u.pos, t) == Some(p);
    assert p.0 in EmptyAdjacents(s.grid, u.pos);
  }
}
