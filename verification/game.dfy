/**
 * The drivers of day15.rb: `compute_part_one`, which plays a whole battle
 * on a `Map`, and `compute_part_two`, which searches for the smallest elf
 * attack power with which no elf dies.
 */
module Game {
  import opened Wrappers
  import opened Grid
  import opened Combat
  import opened Rounds
  import opened Simulator

  /** `elves.sum(&:hp)`: the hit points of the units `ids`, added up one unit at a time. */
  method SumHpOf(s: MapState, ids: set<UnitId>) returns (total: int)
    requires ids <= s.units.Keys
    ensures total == SumHp(s, ids)
  {
    total := 0;
    var rest := ids;
    while rest != {}
      invariant rest <= ids && total + SumHp(s, rest) == SumHp(s, ids)
      decreases |rest|
    {
      var id :| id in rest;
      SumHpRemove(s, rest, id);
      total := total + s.units[id].hp;
      rest := rest - {id};
    }
  }

  /**
   * One pass of the `while` loop of `compute_part_one`: a round, and
   * whether it ended the combat. `left` rounds of fuel remain before it,
   * `next` after it, and `counted` rounds were counted so far.
   */
  method PlayRound(m: Map, ghost s0: MapState, fuel: nat, counted: nat, ghost left: nat, ghost next: nat)
    returns (ended: bool)
    requires m.Valid() && !CombatEnded(m.View()) && left == next + 1
    requires Consistent(s0) && Battle(s0, fuel) == Shifted(Battle(m.View(), left), counted)
    modifies m
    ensures m.Valid() && ended == CombatEnded(m.View())
    ensures ended ==> Battle(s0, fuel) == Some((m.View(), counted))
    ensures !ended ==> Battle(s0, fuel) == Shifted(Battle(m.View(), next), counted + 1)
  {
    ghost var v := m.View();
    LoopUnits(m);
    ended := CombatEnded(m.View());
    if ended {
      BattleEndsAfterRound(v, left);
      ShiftedEnd(m.View(), counted);
    } else {
      BattleGoesOnAfterRound(v, left, next);
      ShiftedTwice(Battle(m.View(), next), counted);
    }
  }

  /**
   * The `while` loop of `compute_part_one`: rounds are played until one
   * side is gone; the count leaves out the round in which that happened.
   * `None` when `fuel` rounds were not enough.
   */
  method PlayBattle(m: Map, fuel: nat) returns (rounds: Option<nat>)
    requires m.Valid()
    modifies m
    ensures m.Valid()
    ensures rounds.None? <==> Battle(old(m.View()), fuel).None?
    ensures rounds.Some? ==> Battle(old(m.View()), fuel) == Some((m.View(), rounds.value))
  {
    ghost var s0 := m.View();
    var roundNum := 0;
    ghost var left := fuel;
    ShiftedTwice(Battle(s0, fuel), 0);
    while !CombatEnded(m.View())
      invariant m.Valid() && roundNum + left == fuel
      invariant Battle(s0, fuel) == Shifted(Battle(m.View(), left), roundNum)
      decreases left
    {
      if roundNum == fuel {
        BattleOutOfFuel(m.View());
        return None;
      }
      ghost var next := left - 1;
      var ended := PlayRound(m, s0, fuel, roundNum, left, next);
      if ended {
        return Some(roundNum);
      }
      roundNum := roundNum + 1;
      left := next;
    }
    BattleOfEnded(m.View(), left);
    ShiftedEnd(m.View(), roundNum);
    return Some(roundNum);
  }

  /**
   * `compute_part_one(input, ap: 4)`: sets the elves' attack power (4 unless given), plays the
   * battle, and answers whether no elf died and the outcome: the elves'
   * remaining hit points times the number of full rounds.
   */
  method ComputePartOne(m: Map, ap: int := 4, fuel: nat) returns (r: Option<(bool, int)>)
    requires m.Valid()
    modifies m
    ensures r == PartOne(old(m.View()), ap, fuel)
  {
    m.SetElfAp(ap);
    var elvesBefore := |m.elves|;
    var rounds := PlayBattle(m, fuel);
    if rounds.None? {
      return None;
    }
    var elvesAfter := |m.elves|;
    var finalHealth := SumHpOf(m.View(), m.elves);
    r := Some((elvesBefore == elvesAfter, finalHealth * rounds.value));
  }


  /** The range of attack powers `compute_part_two` searches, `(4..200)`. */
  const MinAp := 4
  const MaxAp := 200

  /** `compute_part_one` on a freshly read map with the elves' attack power `ap`. */
  ghost function Trial(rows: seq<seq<char>>, ap: int, fuel: nat): Option<(bool, int)>
    requires WellFormed(rows)
  {
    InitialConsistent(rows);
    PartOne(Initial(rows), ap, fuel)
  }

  /** With attack power `ap` the battle ends and no elf dies. */
  ghost predicate Survives(rows: seq<seq<char>>, ap: int, fuel: nat)
    requires WellFormed(rows)
  {
    Trial(rows, ap, fuel).Some? && Trial(rows, ap, fuel).value.0
  }

  /** With attack power `ap` the battle ends and some elf dies. */
  ghost predicate Dies(rows: seq<seq<char>>, ap: int, fuel: nat)
    requires WellFormed(rows)
  {
    Trial(rows, ap, fuel).Some? && !Trial(rows, ap, fuel).value.0
  }

  /** More attack power never lets an elf die that survived with less. */
  ghost predicate Monotone(rows: seq<seq<char>>, fuel: nat)
    requires WellFormed(rows)
  {
    forall a, b | MinAp <= a <= b <= MaxAp && Survives(rows, a, fuel) :: Survives(rows, b, fuel)
  }

  /** `compute_part_one(prod_input, ap: ap)`: a battle on a freshly read map. */
  method Probe(rows: seq<seq<char>>, ap: int, fuel: nat) returns (t: Option<(bool, int)>)
    requires WellFormed(rows)
    ensures t == Trial(rows, ap, fuel)
  {
    var m := new Map(rows);
    InitialConsistent(rows);
    t := ComputePartOne(m, ap, fuel);
  }

  /**
   * What part two answers: `ap` lets every elf live, with `outcome` as the
   * battle's outcome, and the power just below it, when there is one in
   * the range, lets an elf die.
   */
  ghost predicate Found(rows: seq<seq<char>>, fuel: nat, ap: int, outcome: int)
    requires WellFormed(rows)
  {
    && MinAp <= ap <= MaxAp
    && Trial(rows, ap, fuel) == Some((true, outcome))
    && (ap == MinAp || Dies(rows, ap - 1, fuel))
  }

  /** The power just below `ap` lets an elf die, `below` naming it. */
  lemma BelowDies(rows: seq<seq<char>>, fuel: nat, ap: int, below: int)
    requires WellFormed(rows) && below == ap - 1 && (ap == MinAp || Dies(rows, below, fuel))
    ensures ap == MinAp || Dies(rows, ap - 1, fuel)
  {
  }

  /** A probe that lets every elf live, above one that lets an elf die, is what part two answers. */
  lemma FoundAt(rows: seq<seq<char>>, fuel: nat, ap: int, t: Option<(bool, int)>)
    requires WellFormed(rows) && MinAp <= ap <= MaxAp && t == Trial(rows, ap, fuel) && Survives(rows, ap, fuel)
    requires ap == MinAp || Dies(rows, ap - 1, fuel)
    ensures t.Some? && Found(rows, fuel, ap, t.value.1)
  {
  }

  /**
   * When more attack power never lets an elf die that survived with less,
   * the power part two answers is the least one with which every elf lives.
   */
  lemma FoundIsLeast(rows: seq<seq<char>>, fuel: nat, ap: int, outcome: int)
    requires WellFormed(rows) && Found(rows, fuel, ap, outcome) && Monotone(rows, fuel)
    ensures Survives(rows, ap, fuel)
    ensures forall a | MinAp <= a < ap :: !Survives(rows, a, fuel)
  {
    if ap > MinAp {
      assert !Survives(rows, ap - 1, fuel);
    }
  }

  /**
   * `compute_part_two`: Ruby's `bsearch` in find-minimum mode over the
   * attack powers 4 to 200, each probe a full battle on a fresh map; then
   * one more battle at the power found, for its outcome. `None` when no
   * probe lets every elf live, or when a battle needs more than `fuel`
   * rounds.
   */
  method ComputePartTwo(rows: seq<seq<char>>, fuel: nat) returns (r: Option<(int, int)>)
    requires WellFormed(rows)
    ensures r.Some? ==> Found(rows, fuel, r.value.0, r.value.1)
    ensures r.None? ==>
              || Dies(rows, MaxAp, fuel)
              || exists ap :: MinAp <= ap <= MaxAp && Trial(rows, ap, fuel).None?
  {
    // Ruby searches the indices of `(4..200).to_a`; the same steps are
    // taken here on the attack powers themselves, offset by `MinAp`.
    var low, high := MinAp, MaxAp + 1;
    var satisfied := false;
    ghost var failed := low - 1;
    while low < high
      invariant MinAp <= low <= high <= MaxAp + 1 && failed == low - 1
      invariant low > MinAp ==> Dies(rows, failed, fuel)
      invariant high <= MaxAp ==> Survives(rows, high, fuel)
      invariant satisfied <==> high <= MaxAp
    {
      var mid := low + (high - low) / 2;
      var trial := Probe(rows, mid, fuel);
      if trial.None? {
        return None;
      }
      if trial.value.0 {
        satisfied := true;
        high := mid;
      } else {
        failed := mid;
        low := mid + 1;
      }
    }
    if !satisfied {
      return None;
    }
    var last := Probe(rows, high, fuel);
    r := Some((high, last.value.1));
    BelowDies(rows, fuel, high, failed);
    FoundAt(rows, fuel, high, last);
  }
}
