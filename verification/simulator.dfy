/**
 * The `Map` class of day15.rb as a mutable object, and the procedures that
 * drive it: `loop_units`, `compute_part_one` and `compute_part_two`. Each
 * method is proved to do what the functions of `Combat` and `Rounds` say.
 */
module Simulator {
  import opened Wrappers
  import opened Ordering
  import opened Grid
  import opened Pathfinding
  import opened Combat
  import opened Rounds

  /** `GOBLIN_CELL`, `ELF_CELL`, `WALL_CELL` and `EMPTY_CELL`. */
  const GoblinChar: char := 'G'
  const ElfChar: char := 'E'
  const WallChar: char := '#'
  const EmptyChar: char := '.'

  /** What `Map.new` stores for the character at column `x` of row `y`. */
  function CellOf(ch: char, x: int, y: int): (c: Cell)
    ensures c.Occupied? <==> ch == GoblinChar || ch == ElfChar
    ensures c.Occupied? ==> c.id == Coord(x, y)
    ensures c == Wall <==> ch == WallChar
    ensures c == Empty <==> ch == EmptyChar
  {
    if ch == GoblinChar || ch == ElfChar then Occupied(Coord(x, y))
    else if ch == WallChar then Wall
    else if ch == EmptyChar then Empty
    else Terrain(ch)
  }

  /** The squares of `rows` that hold `ch`. */
  function Squares(rows: seq<seq<char>>, ch: char): (r: set<Coord>)
    ensures forall c {:trigger c in r} :: c in r <==>
              0 <= c.y < |rows| && 0 <= c.x < |rows[c.y]| && rows[c.y][c.x] == ch
  {
    var r := set y, x | 0 <= y < |rows| && 0 <= x < |rows[y]| && rows[y][x] == ch :: Coord(x, y);
    assert forall c {:trigger c in r} :: c in r <==>
             0 <= c.y < |rows| && 0 <= c.x < |rows[c.y]| && rows[c.y][c.x] == ch by {
      forall c: Coord | 0 <= c.y < |rows| && 0 <= c.x < |rows[c.y]| && rows[c.y][c.x] == ch ensures c in r {
        assert c == Coord(c.x, c.y);
      }
    }
    r
  }

  /** Square `c` of `rows` holds `ch` and comes before column `x` of row `y` in reading order. */
  predicate SeenBefore(rows: seq<seq<char>>, ch: char, c: Coord, y: int, x: int) {
    && 0 <= c.y < |rows| && 0 <= c.x < |rows[c.y]| && rows[c.y][c.x] == ch
    && (c.y < y || (c.y == y && c.x < x))
  }

  /** A new unit on square `c`, with `DEFAULT_HP` and `DEFAULT_AP`. */
  function NewUnit(f: Faction, c: Coord): Unit {
    Unit(f, DefaultHp, DefaultAp, c)
  }

  /** `Map.new(rows)`: the squares as read, one goblin per `G`, one elf per `E`, each at full strength. */
  function Initial(rows: seq<seq<char>>): (s: MapState)
    ensures |s.grid| == |rows| && forall y | 0 <= y < |rows| :: |s.grid[y]| == |rows[y]|
    ensures forall y, x | 0 <= y < |rows| && 0 <= x < |rows[y]| :: s.grid[y][x] == CellOf(rows[y][x], x, y)
    ensures s.goblins == Squares(rows, GoblinChar) && s.elves == Squares(rows, ElfChar)
    ensures s.units.Keys == s.goblins + s.elves
    ensures forall c {:trigger c in s.goblins} | c in s.goblins :: s.units[c] == NewUnit(Goblin, c)
    ensures forall c {:trigger c in s.elves} | c in s.elves :: s.units[c] == NewUnit(Elf, c)
  {
    var grid := seq(|rows|, y requires 0 <= y < |rows| =>
                  seq(|rows[y]|, x requires 0 <= x < |rows[y]| => CellOf(rows[y][x], x, y)));
    var goblins, elves := Squares(rows, GoblinChar), Squares(rows, ElfChar);
    var units := map c | c in goblins + elves :: NewUnit(if c in goblins then Goblin else Elf, c);
    MapState(grid, units, goblins, elves)
  }

  /** The input the simulation expects: a rectangle of characters walled in by `#`. */
  predicate WellFormed(rows: seq<seq<char>>) {
    && |rows| > 0 && |rows[0]| > 0
    && (forall y | 0 <= y < |rows| :: |rows[y]| == |rows[0]|)
    && forall y, x | 0 <= y < |rows| && 0 <= x < |rows[y]| &&
                     (y == 0 || y == |rows| - 1 || x == 0 || x == |rows[y]| - 1) :: rows[y][x] == WallChar
  }

  /** A well-formed input gives a consistent starting state. */
  lemma InitialConsistent(rows: seq<seq<char>>)
    requires WellFormed(rows)
    ensures Consistent(Initial(rows))
  {
    var s := Initial(rows);
    assert Rectangular(s.grid);
    assert Bordered(s.grid);
    forall id | id in s.units ensures id in Living(s) <==> s.units[id].hp > 0 {
    }
    forall id | id in Living(s) ensures id in s.units && Placed(s, id) {
    }
    forall c | InBounds(s.grid, c) && At(s.grid, c).Occupied? ensures Holds(s, c) {
      assert c == Coord(c.x, c.y);
      assert c in Squares(rows, rows[c.y][c.x]);
    }
  }

  /** Once every row is read, the squares and units read are those of `Initial(rows)`. */
  lemma ReadAll(rows: seq<seq<char>>, m: Board, us: map<UnitId, Unit>, gs: set<UnitId>, es: set<UnitId>)
    requires |m| == |rows| && forall yy | 0 <= yy < |rows| :: |m[yy]| == |rows[yy]|
    requires forall yy, xx | 0 <= yy < |rows| && 0 <= xx < |rows[yy]| :: m[yy][xx] == CellOf(rows[yy][xx], xx, yy)
    requires forall c {:trigger c in gs} :: c in gs <==> SeenBefore(rows, GoblinChar, c, |rows|, 0)
    requires forall c {:trigger c in es} :: c in es <==> SeenBefore(rows, ElfChar, c, |rows|, 0)
    requires forall c {:trigger c in us} :: c in us <==> c in gs || c in es
    requires forall c {:trigger c in gs} | c in gs :: c in us && us[c] == NewUnit(Goblin, c)
    requires forall c {:trigger c in es} | c in es :: c in us && us[c] == NewUnit(Elf, c)
    ensures MapState(m, us, gs, es) == Initial(rows)
  {
    var s := Initial(rows);
    forall yy | 0 <= yy < |rows| ensures m[yy] == s.grid[yy] {
    }
    assert gs == s.goblins && es == s.elves;
    assert us.Keys == s.units.Keys;
  }

  /** The loop of `set_elf_ap` over the unit records: every unit of `ids` gets attack power `ap`. */
  method SetApOf(units: map<UnitId, Unit>, ids: set<UnitId>, ap: int) returns (r: map<UnitId, Unit>)
    requires ids <= units.Keys
    ensures r.Keys == units.Keys
    ensures forall id {:trigger id in units} | id in units ::
              r[id] == if id in ids then units[id].(ap := ap) else units[id]
  {
    r := units;
    var rest := ids;
    while rest != {}
      invariant rest <= ids && r.Keys == units.Keys
      invariant forall id {:trigger id in units} | id in units ::
                  r[id] == if id in ids && id !in rest then units[id].(ap := ap) else units[id]
      decreases |rest|
    {
      var e :| e in rest;
      r := r[e := r[e].(ap := ap)];
      rest := rest - {e};
    }
  }

  /**
   * The loop of `next_move`: `next_move_between(from, t)` for every square
   * `t` of `targets`, in any order, keeping the answer with the least
   * `[dist, target.reverse]` (`compact.min_by`).
   */
  method BestAnswer(g: Board, from: Coord, targets: set<Coord>) returns (best: Option<(Coord, nat)>)
    requires Bordered(g) && Interior(g, from)
    ensures best.None? <==> Answers(g, from, targets) == {}
    ensures best.Some? ==> IsLeastMove(Answers(g, from, targets), best.value)
  {
    best := None;
    var rest := targets;
    ghost var seen: set<(Coord, nat)> := {};
    while rest != {}
      invariant rest <= targets && AnswersSeen(g, from, targets, rest, seen)
      invariant best.None? <==> seen == {}
      invariant best.Some? ==> IsLeastMove(seen, best.value)
      decreases |rest|
    {
      var t :| t in rest;
      var answer := NextMoveBetween(g, from, t);
      AnswersSeenStep(g, from, targets, rest, seen, t);
      ghost var best' := best;
      if answer.Some? && (best.None? || MoveBefore(answer.value, best.value)) {
        best := answer;
      }
      KeepLeast(seen, best', answer);
      seen := if answer.Some? then seen + {answer.value} else seen;
      rest := rest - {t};
    }
    AnswersSeenAll(g, from, targets, seen);
  }

  /** The least answer for the squares in range is the move `next_move` picks. */
  lemma LeastAnswerIsNextMove(s: MapState, id: UnitId, best: Option<(Coord, nat)>)
    requires Consistent(s) && id in Living(s)
    requires var g, from, targets := s.grid, s.units[id].pos, InRange(s, s.units[id].faction);
             && (best.None? <==> Answers(g, from, targets) == {})
             && (best.Some? ==> IsLeastMove(Answers(g, from, targets), best.value))
    ensures NextMoveSpec(s, id) == if best.None? then None else Some(best.value.0)
  {
    LivingIsPlaced(s, id);
    if best.Some? {
      var p :| IsLeastMove(Targets(s, id), p) && p.0 == NextMoveSpec(s, id).value;
      LeastMoveIsUnique(Targets(s, id), p, best.value);
    }
  }

  /** Comparing one more answer with the least one so far gives the least answer of the larger set. */
  lemma KeepLeast(seen: set<(Coord, nat)>, best: Option<(Coord, nat)>, answer: Option<(Coord, nat)>)
    requires best.None? <==> seen == {}
    requires best.Some? ==> IsLeastMove(seen, best.value)
    ensures var best' := if answer.Some? && (best.None? || MoveBefore(answer.value, best.value)) then answer else best;
            var seen' := if answer.Some? then seen + {answer.value} else seen;
            && (best'.None? <==> seen' == {})
            && (best'.Some? ==> IsLeastMove(seen', best'.value))
  {
    if answer.Some? {
      var p := answer.value;
      if best.None? || MoveBefore(p, best.value) {
        forall q | q in seen && q != p ensures MoveBefore(p, q) {
          MoveBeforeIsStrictTotal(p, best.value, q);
        }
      } else {
        MoveBeforeIsStrictTotal(best.value, p, best.value);
      }
    }
  }

  /** `seen` holds the answers for the squares of `targets` that are not in `rest`. */
  ghost predicate AnswersSeen(g: Board, from: Coord, targets: set<Coord>, rest: set<Coord>, seen: set<(Coord, nat)>)
    requires Bordered(g) && Interior(g, from)
  {
    forall p {:trigger p in seen} :: p in seen <==>
      exists t :: t in targets && t !in rest && BestFirstStep(g, from, t) == Some(p)
  }

  lemma AnswersSeenStep(g: Board, from: Coord, targets: set<Coord>, rest: set<Coord>, seen: set<(Coord, nat)>, t: Coord)
    requires Bordered(g) && Interior(g, from) && AnswersSeen(g, from, targets, rest, seen)
    requires t in rest && rest <= targets
    ensures AnswersSeen(g, from, targets, rest - {t},
                        if BestFirstStep(g, from, t).Some? then seen + {BestFirstStep(g, from, t).value} else seen)
  {
    var seen' := if BestFirstStep(g, from, t).Some? then seen + {BestFirstStep(g, from, t).value} else seen;
    forall p | exists u :: u in targets && u !in rest - {t} && BestFirstStep(g, from, u) == Some(p)
      ensures p in seen'
    {
      var u :| u in targets && u !in rest - {t} && BestFirstStep(g, from, u) == Some(p);
      if u != t {
        assert p in seen;
      }
    }
    forall p | p in seen' ensures exists u :: u in targets && u !in rest - {t} && BestFirstStep(g, from, u) == Some(p) {
      if p !in seen {
        assert BestFirstStep(g, from, t) == Some(p);
      }
    }
  }

  lemma AnswersSeenAll(g: Board, from: Coord, targets: set<Coord>, seen: set<(Coord, nat)>)
    requires Bordered(g) && Interior(g, from) && AnswersSeen(g, from, targets, {}, seen)
    ensures seen == Answers(g, from, targets)
  {
  }

  lemma AllElvesUpdated(s: MapState, ap: int, units: map<UnitId, Unit>)
    requires units.Keys == s.units.Keys
    requires forall id {:trigger id in s.units} | id in s.units ::
               units[id] == if id in s.elves then s.units[id].(ap := ap) else s.units[id]
    ensures units == WithElfAp(s, ap).units
  {
  }

  /**
   * `Map`: `@map`, the units (a record per unit, named by its starting
   * square), `@goblins` and `@elves`.
   */
  class Map {
    var grid: Board
    var units: map<UnitId, Unit>
    var goblins: set<UnitId>
    var elves: set<UnitId>

    function View(): MapState
      reads this
    {
      MapState(grid, units, goblins, elves)
    }

    ghost predicate Valid()
      reads this
    {
      Consistent(View())
    }

    /** `Map.new(coordinates)`: reads the rows square by square. */
    constructor (rows: seq<seq<char>>)
      ensures View() == Initial(rows)
    {
      var m: Board := [];
      var us: map<UnitId, Unit> := map[];
      var gs: set<UnitId> := {};
      var es: set<UnitId> := {};
      var y := 0;
      while y < |rows|
        invariant 0 <= y <= |rows| && |m| == y
        invariant forall yy | 0 <= yy < y :: |m[yy]| == |rows[yy]|
        invariant forall yy, xx | 0 <= yy < y && 0 <= xx < |rows[yy]| :: m[yy][xx] == CellOf(rows[yy][xx], xx, yy)
        invariant forall c {:trigger c in gs} :: c in gs <==> SeenBefore(rows, GoblinChar, c, y, 0)
        invariant forall c {:trigger c in es} :: c in es <==> SeenBefore(rows, ElfChar, c, y, 0)
        invariant forall c {:trigger c in us} :: c in us <==> c in gs || c in es
        invariant forall c {:trigger c in gs} | c in gs :: c in us && us[c] == NewUnit(Goblin, c)
        invariant forall c {:trigger c in es} | c in es :: c in us && us[c] == NewUnit(Elf, c)
      {
        var row: seq<Cell> := [];
        var x := 0;
        while x < |rows[y]|
          invariant 0 <= x <= |rows[y]| && |row| == x
          invariant forall xx | 0 <= xx < x :: row[xx] == CellOf(rows[y][xx], xx, y)
          invariant forall c {:trigger c in gs} :: c in gs <==> SeenBefore(rows, GoblinChar, c, y, x)
          invariant forall c {:trigger c in es} :: c in es <==> SeenBefore(rows, ElfChar, c, y, x)
          invariant forall c {:trigger c in us} :: c in us <==> c in gs || c in es
          invariant forall c {:trigger c in gs} | c in gs :: c in us && us[c] == NewUnit(Goblin, c)
          invariant forall c {:trigger c in es} | c in es :: c in us && us[c] == NewUnit(Elf, c)
        {
          var ch := rows[y][x];
          var here := Coord(x, y);
          if ch == GoblinChar {
            gs := gs + {here};
            us := us[here := NewUnit(Goblin, here)];
            row := row + [Occupied(here)];
          } else if ch == ElfChar {
            es := es + {here};
            us := us[here := NewUnit(Elf, here)];
            row := row + [Occupied(here)];
          } else {
            row := row + [CellOf(ch, x, y)];
          }
          x := x + 1;
        }
        m := m + [row];
        y := y + 1;
      }
      grid, units, goblins, elves := m, us, gs, es;
      ReadAll(rows, m, us, gs, es);
    }

    /** `set_elf_ap(ap:)`: each living elf in turn gets attack power `ap`. */
    method SetElfAp(ap: int)
      requires Valid()
      modifies this
      ensures Valid() && View() == WithElfAp(old(View()), ap)
    {
      ghost var s := View();
      assert elves <= units.Keys;
      units := SetApOf(units, elves, ap);
      AllElvesUpdated(s, ap, units);
      WithElfApConsistent(s, ap);
    }

    /** `next_move(unit)`, which Ruby refuses (raises) for a unit that should not move. */
    method NextMove(id: UnitId) returns (m: Option<Coord>)
      requires Valid() && id in Living(View()) && ShouldMove(View(), id)
      ensures m == NextMoveSpec(View(), id)
    {
      LivingIsPlaced(View(), id);
      var u := units[id];
      var best := BestAnswer(grid, u.pos, InRange(View(), u.faction));
      m := if best.None? then None else Some(best.value.0);
      LeastAnswerIsNextMove(View(), id, best);
    }

    /** `move(unit, target)`. */
    method Move(id: UnitId, target: Coord)
      requires Valid() && id in Living(View()) && Open(grid, target)
      modifies this
      ensures Valid() && View() == Moved(old(View()), id, target)
    {
      LivingIsPlaced(View(), id);
      MovedConsistent(View(), id, target);
      var u := units[id];
      grid := SetAt(grid, u.pos, Empty);
      grid := SetAt(grid, target, Occupied(id));
      units := units[id := u.(pos := target)];
    }

    /** `remove_dead(unit)`. */
    method RemoveDead(id: UnitId)
      requires id in units && InBounds(grid, units[id].pos)
      modifies this
      ensures View() == Removed(old(View()), id)
    {
      grid := SetAt(grid, units[id].pos, Empty);
      match units[id].faction
      case Goblin => goblins := goblins - {id};
      case Elf => elves := elves - {id};
    }

    /** `attack(source, target)`. */
    method Attack(source: UnitId, target: UnitId)
      requires Valid() && source in units && target in Living(View())
      modifies this
      ensures Valid() && View() == Attacked(old(View()), source, target)
    {
      ghost var s := View();
      AttackedConsistent(s, source, target);
      var t := units[target];
      units := units[target := t.(hp := t.hp - units[source].ap)];
      ghost var hit := View();
      if units[target].hp <= 0 {
        assert Attacked(s, source, target) == Removed(hit, target);
        RemoveDead(target);
      } else {
        assert Attacked(s, source, target) == hit;
      }
    }
  }

  /** The units of a suffix of `order` are units of `order`. */
  lemma InSuffix(order: seq<UnitId>, i: int)
    requires 0 <= i <= |order|
    ensures forall x {:trigger x in order[i..]} | x in order[i..] :: x in order
  {
    forall x | x in order[i..] ensures x in order {
      var k :| 0 <= k < |order[i..]| && order[i..][k] == x;
      assert order[i + k] == x;
    }
  }

  /** What is left of a round after the turns before `order[i]`: that turn, then the rest unless it stopped the round. */
  lemma RoundFromStep(v: MapState, order: seq<UnitId>, i: int)
    requires Consistent(v) && 0 <= i < |order|
    requires forall x {:trigger x in order} | x in order :: x in v.units
    ensures order[i] in v.units
    ensures forall x {:trigger x in order[i..]} | x in order[i..] :: x in v.units
    ensures forall x {:trigger x in order[i + 1..]} | x in order[i + 1..] :: x in Turn(v, order[i]).0.units
    ensures RoundFrom(v, order[i..]) ==
              if Turn(v, order[i]).1 then Turn(v, order[i]) else RoundFrom(Turn(v, order[i]).0, order[i + 1..])
  {
    assert order[i] in order;
    InSuffix(order, i);
    InSuffix(order, i + 1);
    assert order[i..][0] == order[i] && order[i..][1..] == order[i + 1..];
  }

  /**
   * The body of the loop of `loop_units` for one unit: `true` where Ruby
   * returns from `loop_units`, `false` where it goes on with the next unit.
   */
  method TakeTurn(m: Map, id: UnitId) returns (stop: bool)
    requires m.Valid() && id in m.units
    modifies m
    ensures m.Valid() && (m.View(), stop) == Turn(old(m.View()), id)
  {
    ghost var v := m.View();
    if m.units[id].hp <= 0 {
      return false;
    }
    if CombatEnded(m.View()) {
      return true;
    }
    if ShouldMove(m.View(), id) {
      var next := m.NextMove(id);
      if next.None? {
        return false;
      }
      NextMoveIsAStep(v, id);
      m.Move(id, next.value);
      assert Turn(v, id).0 == Strike(m.View(), id);
    } else {
      assert Turn(v, id).0 == Strike(m.View(), id);
    }
    StrikeStep(m, id);
    return CombatEnded(m.View());
  }

  /** The attack half of the loop body: `enemies(unit).first` is attacked when there is one. */
  method StrikeStep(m: Map, id: UnitId)
    requires m.Valid() && id in Living(m.View())
    modifies m
    ensures m.Valid() && m.View() == Strike(old(m.View()), id)
  {
    if ShouldAttack(m.View(), id) {
      var target := Enemies(m.View(), id)[0];
      assert target in Enemies(m.View(), id);
      m.Attack(id, target);
    }
  }

  /**
   * `loop_units(input)`: the living units, in reading order as they stood
   * when the round began, each take their turn; a unit that died during
   * the round is skipped, and the round stops as soon as one side is gone.
   */
  method LoopUnits(m: Map)
    requires m.Valid()
    modifies m
    ensures m.Valid() && m.View() == Round(old(m.View())).0
  {
    ghost var s0 := m.View();
    var order := Order(m.View());
    InSuffix(order, 0);
    for i := 0 to |order|
      invariant m.Valid() && m.units.Keys == s0.units.Keys
      invariant forall x {:trigger x in order} | x in order :: x in m.units
      invariant forall x {:trigger x in order[i..]} | x in order[i..] :: x in m.units
      invariant RoundFrom(m.View(), order[i..]).0 == Round(s0).0
    {
      RoundFromStep(m.View(), order, i);
      var stop := TakeTurn(m, order[i]);
      if stop {
        return;
      }
    }
  }
}
