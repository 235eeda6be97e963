/**
 * What one unit's turn, one round (`loop_units`), a whole battle and
 * `compute_part_one` do to a battle state (day15.rb), as functions of the
 * state.
 */
module Rounds {
  import opened Wrappers
  import opened Ordering
  import opened Grid
  import opened Pathfinding
  import opened Combat

  /**
   * How a state can change during a battle: no unit record appears or
   * disappears, nobody changes side or attack power, and nobody comes back
   * to life.
   */
  ghost predicate Evolves(s: MapState, r: MapState) {
    && r.units.Keys == s.units.Keys
    && r.goblins <= s.goblins
    && r.elves <= s.elves
    && forall id {:trigger id in s.units} | id in s.units ::
         && r.units[id].faction == s.units[id].faction
         && r.units[id].ap == s.units[id].ap
  }

  lemma EvolvesTransitive(a: MapState, b: MapState, c: MapState)
    requires Evolves(a, b) && Evolves(b, c)
    ensures Evolves(a, c)
  {
    forall id | id in a.units
      ensures c.units[id].faction == a.units[id].faction && c.units[id].ap == a.units[id].ap
    {
      assert id in b.units;
    }
  }

  /** An attack on an enemy keeps the state consistent, leaves the attacker as it was and moves nobody. */
  lemma AttackEvolves(s: MapState, id: UnitId, t: UnitId)
    requires Consistent(s) && id in Living(s) && t in Opponents(s, s.units[id].faction)
    ensures InBounds(s.grid, s.units[t].pos)
    ensures Consistent(Attacked(s, id, t)) && Evolves(s, Attacked(s, id, t))
    ensures id in Living(Attacked(s, id, t)) && Attacked(s, id, t).units[id] == s.units[id]
    ensures forall x {:trigger x in s.units} | x in s.units :: Attacked(s, id, t).units[x].pos == s.units[x].pos
  {
    AttackedConsistent(s, id, t);
    var r := Attacked(s, id, t);
    assert id != t;
    forall x | x in s.units
      ensures r.units[x].faction == s.units[x].faction && r.units[x].ap == s.units[x].ap
    {
    }
  }

  /**
   * The attack half of a turn in `loop_units`: when an enemy is adjacent,
   * the weakest one loses the attacker's attack power in hit points. The
   * attacker itself is left as it was, and nobody moves.
   */
  function Strike(s: MapState, id: UnitId): (r: MapState)
    requires Consistent(s) && id in Living(s)
    ensures Consistent(r) && Evolves(s, r)
    ensures id in Living(r) && r.units[id] == s.units[id]
    ensures forall x {:trigger x in s.units} | x in s.units :: r.units[x].pos == s.units[x].pos
    ensures ShouldAttack(s, id) ==>
              r.units[Enemies(s, id)[0]].hp == s.units[Enemies(s, id)[0]].hp - s.units[id].ap
    ensures !ShouldAttack(s, id) ==> r == s
  {
    if ShouldAttack(s, id) then
      var t := Enemies(s, id)[0];
      assert t in Enemies(s, id);
      AttackEvolves(s, id, t);
      Attacked(s, id, t)
    else s
  }

  /** A living unit stepping onto an empty neighbouring square keeps the state consistent and moves nobody else. */
  lemma MoveEvolves(s: MapState, id: UnitId, c: Coord)
    requires Consistent(s) && id in Living(s) && Open(s.grid, c)
    ensures InBounds(s.grid, s.units[id].pos)
    ensures Consistent(Moved(s, id, c)) && Evolves(s, Moved(s, id, c)) && id in Living(Moved(s, id, c))
    ensures forall x {:trigger x in s.units} | x in s.units && x != id :: Moved(s, id, c).units[x].pos == s.units[x].pos
    ensures Moved(s, id, c).units[id].pos == c
  {
    LivingIsPlaced(s, id);
    MovedConsistent(s, id, c);
  }

  /** A move onto `c` followed by the attack half of the turn. */
  ghost function MoveAndStrike(s: MapState, id: UnitId, c: Coord): (r: MapState)
    requires Consistent(s) && id in Living(s) && Open(s.grid, c)
    ensures Consistent(r) && Evolves(s, r)
    ensures forall x {:trigger x in s.units} | x in s.units && x != id :: r.units[x].pos == s.units[x].pos
    ensures r.units[id].pos == c
  {
    MoveEvolves(s, id, c);
    var r := Strike(Moved(s, id, c), id);
    EvolvesTransitive(s, Moved(s, id, c), r);
    r
  }

  /**
   * One iteration of `loop_units` for `id`: a dead unit is skipped; once
   * one side is gone the round stops (`true`); otherwise the unit moves
   * when it should (and does nothing more when it finds no move), then
   * attacks when an enemy is adjacent, and the round stops when that
   * ended the combat.
   */
  ghost function Turn(s: MapState, id: UnitId): (r: (MapState, bool))
    requires Consistent(s) && id in s.units
    ensures Consistent(r.0) && Evolves(s, r.0)
    ensures r.1 ==> CombatEnded(r.0)
    ensures forall x {:trigger x in s.units} | x in s.units && x != id :: r.0.units[x].pos == s.units[x].pos
    ensures r.0.units[id].pos == s.units[id].pos ||
            (Adjacent(s.units[id].pos, r.0.units[id].pos) && Open(s.grid, r.0.units[id].pos))
  {
    if s.units[id].hp <= 0 then (s, false)
    else if CombatEnded(s) then (s, true)
    else if ShouldMove(s, id) then
      match NextMoveSpec(s, id)
      case None => (s, false)
      case Some(c) =>
        NextMoveIsAStep(s, id);
        var r := MoveAndStrike(s, id, c);
        (r, CombatEnded(r))
    else
      var r := Strike(s, id);
      (r, CombatEnded(r))
  }

  /** A dead unit's turn changes nothing. */
  lemma DeadUnitsDoNothing(s: MapState, id: UnitId)
    requires Consistent(s) && id in s.units && id !in Living(s)
    ensures Turn(s, id) == (s, false)
  {
  }

  /** A unit with an enemy next to it stays where it is. */
  lemma AdjacentEnemyPinsUnit(s: MapState, id: UnitId)
    requires Consistent(s) && id in Living(s) && ShouldAttack(s, id)
    ensures Turn(s, id).0.units[id].pos == s.units[id].pos
  {
  }

  /** The turns of the units in `order`, one after another, until one of them stops the round. */
  ghost function RoundFrom(s: MapState, order: seq<UnitId>): (r: (MapState, bool))
    requires Consistent(s) && forall id {:trigger id in order} | id in order :: id in s.units
    ensures Consistent(r.0) && Evolves(s, r.0)
    ensures r.1 ==> CombatEnded(r.0)
    decreases |order|
  {
    if order == [] then (s, false)
    else
      assert order[0] in order;
      var t := Turn(s, order[0]);
      if t.1 then t
      else
        InTail(order);
        var r := RoundFrom(t.0, order[1..]);
        EvolvesTransitive(s, t.0, r.0);
        r
  }

  /** The key `units` sorts by: the square in reading order. */
  function PosKeys(s: MapState): map<UnitId, seq<int>>
    requires Living(s) <= s.units.Keys
  {
    map id | id in Living(s) :: PosKey(s.units[id].pos)
  }

  /** `units`: the living units, once each, in reading order of their squares. */
  function Order(s: MapState): (r: seq<UnitId>)
    requires Consistent(s)
    ensures |r| == |Living(s)|
    ensures forall id {:trigger id in r} :: id in r <==> id in Living(s)
    ensures Ordered(PosKeys(s), r)
  {
    var key := PosKeys(s);
    forall a, b | a in Living(s) && b in Living(s) && a != b ensures key[a] != key[b] {
      PositionsDistinct(s, a, b);
      ReadingOrderIsKeyOrder(s.units[a].pos, s.units[b].pos);
    }
    SortBy(key, Living(s), 2)
  }

  lemma OrderIsReadingOrder(s: MapState)
    requires Consistent(s)
    ensures forall i, j | 0 <= i < j < |Order(s)| ::
              Order(s)[i] in s.units && Order(s)[j] in s.units &&
              ReadingBefore(s.units[Order(s)[i]].pos, s.units[Order(s)[j]].pos)
  {
    var r := Order(s);
    OrderedByIndex(PosKeys(s), r);
    forall i, j | 0 <= i < j < |r|
      ensures r[i] in s.units && r[j] in s.units && ReadingBefore(s.units[r[i]].pos, s.units[r[j]].pos)
    {
      assert r[i] in r && r[j] in r;
      ReadingOrderIsKeyOrder(s.units[r[i]].pos, s.units[r[j]].pos);
    }
  }

  /** `loop_units`: every unit alive at the start of the round takes its turn, in reading order. */
  ghost function Round(s: MapState): (r: (MapState, bool))
    requires Consistent(s)
    ensures Consistent(r.0) && Evolves(s, r.0)
    ensures r.1 ==> CombatEnded(r.0)
  {
    RoundFrom(s, Order(s))
  }

  /** The state after `n` rounds played one after the other from `s`. */
  ghost function AfterRounds(s: MapState, n: nat): (r: MapState)
    requires Consistent(s)
    ensures Consistent(r)
    decreases n
  {
    if n == 0 then s else Round(AfterRounds(s, n - 1)).0
  }

  /** Combat had not ended in any of the states `0` to `n - 1` rounds on from `s`. */
  ghost predicate UnendedBefore(s: MapState, n: nat)
    requires Consistent(s)
  {
    forall j | 0 <= j < n :: !CombatEnded(AfterRounds(s, j))
  }

  /**
   * The loop of `compute_part_one`: rounds until one side is gone, and the
   * number of rounds counted, which leaves out the round in which the
   * combat ended. At most `fuel` rounds are played; `None` when that is
   * not enough.
   */
  ghost function Battle(s: MapState, fuel: nat): (r: Option<(MapState, nat)>)
    requires Consistent(s)
    ensures r.Some? ==> Consistent(r.value.0) && CombatEnded(r.value.0) && Evolves(s, r.value.0)
    ensures r.Some? ==> r.value.1 < fuel || (r.value.1 == 0 && CombatEnded(s))
    decreases fuel
  {
    if CombatEnded(s) then Some((s, 0))
    else if fuel == 0 then None
    else
      var s1 := Round(s).0;
      if CombatEnded(s1) then Some((s1, 0))
      else
        match Battle(s1, fuel - 1)
        case None => None
        case Some(p) =>
          EvolvesTransitive(s, s1, p.0);
          Some((p.0, p.1 + 1))
  }

  /** The hit points of the units `ids`, added up (`sum(&:hp)`). */
  ghost function SumHp(s: MapState, ids: set<UnitId>): int
    requires ids <= s.units.Keys
    decreases |ids|
  {
    if ids == {} then 0
    else
      var id :| id in ids;
      s.units[id].hp + SumHp(s, ids - {id})
  }

  /** The sum does not depend on the unit taken out first. */
  lemma {:induction false} SumHpRemove(s: MapState, ids: set<UnitId>, x: UnitId)
    requires ids <= s.units.Keys && x in ids
    ensures SumHp(s, ids) == s.units[x].hp + SumHp(s, ids - {x})
    decreases |ids|
  {
    var id :| id in ids && SumHp(s, ids) == s.units[id].hp + SumHp(s, ids - {id});
    if id != x {
      SumHpRemove(s, ids - {id}, x);
      SumHpRemove(s, ids - {x}, id);
      assert ids - {id} - {x} == ids - {x} - {id};
    }
  }

  /** Living units have hit points left, so a non-empty side has a positive total. */
  lemma {:induction false} SumHpOfLivingIsPositive(s: MapState, ids: set<UnitId>)
    requires Consistent(s) && ids <= Living(s)
    ensures ids <= s.units.Keys
    ensures ids == {} <==> SumHp(s, ids) == 0
    ensures SumHp(s, ids) >= 0
    decreases |ids|
  {
    if ids != {} {
      var id :| id in ids && SumHp(s, ids) == s.units[id].hp + SumHp(s, ids - {id});
      SumHpOfLivingIsPositive(s, ids - {id});
    }
  }

  /**
   * `compute_part_one(input, ap:)`: the elves get attack power `ap`, the
   * battle is fought, and the answer is whether as many elves are alive as
   * at the start, and the surviving elves' hit points times the rounds
   * counted.
   */
  ghost function PartOne(s: MapState, ap: int, fuel: nat): (r: Option<(bool, int)>)
    requires Consistent(s)
    ensures r.None? <==> Battle(WithElfAp(s, ap), fuel).None?
  {
    WithElfApConsistent(s, ap);
    var s0 := WithElfAp(s, ap);
    match Battle(s0, fuel)
    case None => None
    case Some(p) =>
      var elvesBefore, elvesAfter := |s0.elves|, |p.0.elves|;
      SumHpOfLivingIsPositive(p.0, p.0.elves);
      Some((elvesBefore == elvesAfter, SumHp(p.0, p.0.elves) * p.1))
  }

  lemma SubsetOfSameSize<T>(a: set<T>, b: set<T>)
    requires a <= b && |a| == |b|
    ensures a == b
  {
    assert b == a + (b - a);
    assert |b - a| == 0;
  }

  /**
   * The flag of `compute_part_one` is true exactly when no elf died; then,
   * if there were elves, the goblins are the side that is gone.
   */
  lemma PartOneFlagMeansNoElfDied(s: MapState, ap: int, fuel: nat)
    requires Consistent(s) && PartOne(s, ap, fuel).Some?
    ensures Consistent(WithElfAp(s, ap)) && Battle(WithElfAp(s, ap), fuel).Some?
    ensures PartOne(s, ap, fuel).value.0 <==> Battle(WithElfAp(s, ap), fuel).value.0.elves == s.elves
    ensures PartOne(s, ap, fuel).value.0 && s.elves != {} ==> Battle(WithElfAp(s, ap), fuel).value.0.goblins == {}
  {
    WithElfApConsistent(s, ap);
    var f := Battle(WithElfAp(s, ap), fuel).value.0;
    if |f.elves| == |s.elves| {
      SubsetOfSameSize(f.elves, s.elves);
    }
  }

  /**
   * The outcome is 0 exactly when no elf survived or the combat ended
   * before a full round was counted; otherwise it is positive.
   */
  lemma PartOneOutcomeSign(s: MapState, ap: int, fuel: nat)
    requires Consistent(s) && PartOne(s, ap, fuel).Some?
    ensures Consistent(WithElfAp(s, ap)) && Battle(WithElfAp(s, ap), fuel).Some?
    ensures PartOne(s, ap, fuel).value.1 >= 0
    ensures PartOne(s, ap, fuel).value.1 == 0 <==>
              Battle(WithElfAp(s, ap), fuel).value.0.elves == {} || Battle(WithElfAp(s, ap), fuel).value.1 == 0
  {
    WithElfApConsistent(s, ap);
    var p := Battle(WithElfAp(s, ap), fuel).value;
    SumHpOfLivingIsPositive(p.0, p.0.elves);
    var h, n := SumHp(p.0, p.0.elves), p.1;
    assert PartOne(s, ap, fuel).value.1 == h * n;
    ProductOfNaturals(h, n);
  }

  lemma ProductOfNaturals(h: int, n: int)
    requires h >= 0 && n >= 0
    ensures h * n >= 0 && (h * n == 0 <==> h == 0 || n == 0)
  {
    if h > 0 && n > 0 {
      assert h * n >= n by {
        assert h * n == (h - 1) * n + n;
        assert (h - 1) * n >= 0;
      }
    }
  }

  /** A battle's result with `k` more rounds counted. */
  function Shifted(b: Option<(MapState, nat)>, k: nat): Option<(MapState, nat)> {
    match b
    case None => None
    case Some(p) => Some((p.0, p.1 + k))
  }

  /** A battle whose next round ends it lasts that round, which is not counted. */
  lemma BattleEndsAfterRound(v: MapState, f: nat)
    requires Consistent(v) && !CombatEnded(v) && CombatEnded(Round(v).0) && f >= 1
    ensures Battle(v, f) == Some((Round(v).0, 0))
  {
  }

  /** A battle whose next round does not end it goes on from that round, counted. */
  lemma BattleGoesOnAfterRound(v: MapState, f: nat, g: nat)
    requires Consistent(v) && !CombatEnded(v) && !CombatEnded(Round(v).0) && f == g + 1
    ensures Battle(v, f) == Shifted(Battle(Round(v).0, g), 1)
  {
    BattleUnfolds(v, g);
  }

  lemma BattleUnfolds(v: MapState, g: nat)
    requires Consistent(v) && !CombatEnded(v) && !CombatEnded(Round(v).0)
    ensures Battle(v, g + 1) == Shifted(Battle(Round(v).0, g), 1)
  {
  }

  lemma ShiftedTwice(b: Option<(MapState, nat)>, k: nat)
    ensures Shifted(Shifted(b, 1), k) == Shifted(b, k + 1)
    ensures Shifted(b, 0) == b
  {
  }

  lemma ShiftedEnd(x: MapState, k: nat)
    ensures Shifted(Some((x, 0)), k) == Some((x, k))
  {
  }

  /**
   * What a battle from `s` with a budget of `fuel` rounds reports: with
   * `n` rounds counted, combat had not ended in the states `0` to `n`
   * rounds on and stops in the state `n + 1` rounds on; with no result,
   * combat had not ended in any state up to `fuel` rounds on.
   */
  ghost predicate CountsRounds(s: MapState, fuel: nat)
    requires Consistent(s)
  {
    match Battle(s, fuel)
    case Some(b) => b.0 == AfterRounds(s, b.1 + 1) && UnendedBefore(s, b.1 + 1)
    case None => UnendedBefore(s, fuel + 1)
  }

  /**
   * The battle from `s0` with budget `fuel0` has played `k` rounds, none of
   * which ended combat, and stands at `s` with `fuel` rounds left: its
   * result is that of the battle from `s`, with `k` more rounds counted.
   */
  ghost predicate Reached(s0: MapState, fuel0: nat, s: MapState, fuel: nat, k: nat)
  {
    && Consistent(s0)
    && s == AfterRounds(s0, k)
    && k + fuel == fuel0
    && !CombatEnded(s)
    && UnendedBefore(s0, k + 1)
    && Battle(s0, fuel0) == Shifted(Battle(s, fuel), k)
  }

  /*
   * The helpers below take the neighbouring counts `k` and `j == k + 1` as
   * separate parameters, so that each step of the proof refers to the same
   * terms on both sides.
   */

  lemma AfterRoundsNext(s0: MapState, k: nat, j: nat)
    requires Consistent(s0) && j == k + 1
    ensures AfterRounds(s0, j) == Round(AfterRounds(s0, k)).0
  {
  }

  lemma AfterRoundsSucc(s0: MapState, k: nat)
    requires Consistent(s0)
    ensures AfterRounds(s0, k + 1) == Round(AfterRounds(s0, k)).0
  {
  }

  lemma ShiftedNext(b: Option<(MapState, nat)>, k: nat, j: nat)
    requires j == k + 1
    ensures Shifted(Shifted(b, 1), k) == Shifted(b, j)
  {
  }

  /** `k + 1` states without an end, then one more, make `j + 1`. */
  lemma {:induction false} UnendedGrows(s0: MapState, k: nat, j: nat)
    requires Consistent(s0) && UnendedBefore(s0, k + 1) && j == k + 1 && !CombatEnded(AfterRounds(s0, j))
    ensures UnendedBefore(s0, j + 1)
  {
    forall i | 0 <= i < j + 1
      ensures !CombatEnded(AfterRounds(s0, i))
    {
      if i != j {
        assert i < k + 1;
      }
    }
  }

  lemma UnendedSame(s0: MapState, k: nat, n: nat)
    requires Consistent(s0) && UnendedBefore(s0, k + 1) && k == n
    ensures UnendedBefore(s0, n + 1)
  {
  }

  lemma BattleOutOfFuelAt(v: MapState, f: nat)
    requires Consistent(v) && !CombatEnded(v) && f == 0
    ensures Battle(v, f) == None
  {
  }

  /** A battle from a state where combat goes on has reached its start. */
  lemma {:induction false} ReachedStart(s: MapState, fuel: nat)
    requires Consistent(s) && !CombatEnded(s)
    ensures Reached(s, fuel, s, fuel, 0) == true
  {
    ShiftedTwice(Battle(s, fuel), 0);
  }

  /**
   * One more round that does not end combat keeps the battle going: `s1`
   * is the state after that round, `g` the rounds then left and `j` the
   * rounds then played.
   */
  lemma {:induction false} ReachedNext(s0: MapState, fuel0: nat, s: MapState, fuel: nat, k: nat, s1: MapState, g: nat, j: nat)
    requires Reached(s0, fuel0, s, fuel, k) == true
    requires fuel == g + 1 && j == k + 1
    requires Consistent(s) && s1 == Round(s).0 && !CombatEnded(s1)
    ensures Reached(s0, fuel0, s1, g, j) == true
  {
    AfterRoundsNext(s0, k, j);
    BattleGoesOnAfterRound(s, fuel, g);
    ShiftedNext(Battle(s1, g), k, j);
    UnendedGrows(s0, k, j);
  }

  /** Where the battle from `s` stops, the battle from `s0` stops and reports its count. */
  lemma {:induction false} ReachedEnd(s0: MapState, fuel0: nat, s: MapState, fuel: nat, k: nat)
    requires Reached(s0, fuel0, s, fuel, k) == true
    requires fuel == 0 || CombatEnded(Round(s).0)
    ensures CountsRounds(s0, fuel0)
  {
    if fuel == 0 {
      BattleOutOfFuelAt(s, fuel);
      UnendedSame(s0, k, fuel0);
    } else {
      BattleEndsAfterRound(s, fuel);
      ShiftedEnd(Round(s).0, k);
      AfterRoundsSucc(s0, k);
    }
  }

  /** Every battle from a state where combat goes on reports as `CountsRounds` says. */
  lemma {:induction false} BattleCountsRounds(s: MapState, fuel: nat)
    requires Consistent(s) && !CombatEnded(s)
    ensures CountsRounds(s, fuel)
  {
    ReachedStart(s, fuel);
    var t, f, k := s, fuel, 0;
    while f > 0 && !CombatEnded(Round(t).0)
      invariant Reached(s, fuel, t, f, k) == true
      decreases f
    {
      var t1, f1, k1 := Round(t).0, f - 1, k + 1;
      ReachedNext(s, fuel, t, f, k, t1, f1, k1);
      t, f, k := t1, f1, k1;
    }
    ReachedEnd(s, fuel, t, f, k);
  }

  /**
   * The count a battle reports is the number of full rounds: with `n`
   * counted, none of the states `0` to `n` rounds on had seen combat end,
   * and the battle stops in the state `n + 1` rounds on.
   */
  lemma {:induction false} BattleCountsFullRounds(s: MapState, fuel: nat, b: (MapState, nat))
    requires Consistent(s) && !CombatEnded(s) && Battle(s, fuel) == Some(b)
    ensures b.0 == AfterRounds(s, b.1 + 1)
    ensures forall j | 0 <= j <= b.1 :: !CombatEnded(AfterRounds(s, j))
  {
    BattleCountsRounds(s, fuel);
  }

  /** A battle gives no result only when no state up to `fuel` rounds on saw combat end. */
  lemma {:induction false} BattleFailsOnlyUnended(s: MapState, fuel: nat)
    requires Consistent(s) && !CombatEnded(s) && Battle(s, fuel) == None
    ensures forall j | 0 <= j <= fuel :: !CombatEnded(AfterRounds(s, j))
  {
    BattleCountsRounds(s, fuel);
  }

  /** A battle already over lasts no round. */
  lemma BattleOfEnded(v: MapState, f: nat)
    requires Consistent(v) && CombatEnded(v)
    ensures Battle(v, f) == Some((v, 0))
  {
  }

  /** A battle not over cannot be played out with no round left. */
  lemma BattleOutOfFuel(v: MapState)
    requires Consistent(v) && !CombatEnded(v)
    ensures Battle(v, 0) == None
  {
  }
}
