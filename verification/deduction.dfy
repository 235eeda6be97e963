/**
 * What day16.rb does with the samples and the program: part one counts
 * the samples that behave like three or more opcodes; part two collects
 * each opcode number's candidate names, resolves them by eliminating the
 * names already known, and runs the program.
 */
module Deduction {
  import opened Wrappers
  import opened Device

  /** `InstructionExecution`: the registers before, the instruction, and the registers after. */
  datatype Sample = Sample(before: Registers, after: Registers, instruction: Instruction)

  /**
   * A sample as parsed: four registers on either side, and operands `i1`
   * and `i2` that name registers, since every proc is tried on the sample
   * and `addr`, tried first, reads both (Ruby raises on the `nil` it would
   * read otherwise).
   */
  predicate WellFormedSample(s: Sample) {
    |s.before| == 4 && |s.after| == 4 && s.instruction.i1 < 4 && s.instruction.i2 < 4
  }

  predicate WellFormedSamples(samples: seq<Sample>) {
    forall s | s in samples :: WellFormedSample(s)
  }

  /**
   * `execution.after == instruction.call(execution.before.clone, …)`. The
   * proc runs on a copy, so the sample itself is left as it was. A proc
   * whose output is not one of the four registers grows the Ruby array
   * past four entries, so it never equals `after`.
   */
  predicate Matches(op: Op, s: Sample)
    requires WellFormedSample(s)
  {
    s.instruction.output < 4 && Apply(op, s.before, s.instruction) == s.after
  }

  /** The names of `ops` that match `s`, in the order of `ops`. */
  function MatchingIn(ops: seq<Op>, s: Sample): (r: seq<Op>)
    requires WellFormedSample(s)
    ensures forall op {:trigger op in r} :: op in r <==> op in ops && Matches(op, s)
    ensures |r| <= |ops|
  {
    if ops == [] then []
    else (if Matches(ops[0], s) then [ops[0]] else []) + MatchingIn(ops[1..], s)
  }

  /** `INSTRUCTIONS.values.select { … }`: the procs that turn `before` into `after`, in table order. */
  function Candidates(s: Sample): seq<Op>
    requires WellFormedSample(s)
  {
    MatchingIn(Ops, s)
  }

  /** The candidates of a sample are exactly the procs that match it. */
  lemma CandidatesAreTheMatches(s: Sample)
    requires WellFormedSample(s)
    ensures forall op {:trigger op in Candidates(s)} :: op in Candidates(s) <==> Matches(op, s)
  {
    OpsListsEveryOpOnce();
  }

  predicate DistinctOps(s: seq<Op>) {
    forall i, j | 0 <= i < j < |s| :: s[i] != s[j]
  }

  lemma {:induction false} MatchingInIsDistinct(ops: seq<Op>, s: Sample)
    requires WellFormedSample(s) && DistinctOps(ops)
    ensures DistinctOps(MatchingIn(ops, s))
    decreases |ops|
  {
    if ops != [] {
      var rest := MatchingIn(ops[1..], s);
      MatchingInIsDistinct(ops[1..], s);
      if Matches(ops[0], s) {
        forall k | 0 <= k < |ops[1..]| ensures ops[1..][k] != ops[0] {
          assert ops[1..][k] == ops[k + 1];
        }
        assert ops[0] !in rest;
        var r := [ops[0]] + rest;
        forall i, j | 0 <= i < j < |r| ensures r[i] != r[j] {
          if i == 0 {
            assert r[j] == rest[j - 1];
            assert rest[j - 1] in rest;
          } else {
            assert r[i] == rest[i - 1] && r[j] == rest[j - 1];
          }
        }
      } else {
        assert MatchingIn(ops, s) == rest;
      }
    }
  }

  // ---------------------------------------------------------------------
  // Part one

  /** `candidates.length >= 3`. */
  predicate BehavesLikeThree(s: Sample)
    requires WellFormedSample(s)
  {
    |Candidates(s)| >= 3
  }

  /** A list of distinct names is as long as the set of its names. */
  lemma {:induction false} DistinctCount(r: seq<Op>)
    requires DistinctOps(r)
    ensures |set op | op in r| == |r|
    decreases |r|
  {
    if r != [] {
      var rest := r[1..];
      assert DistinctOps(rest) by {
        forall i, j | 0 <= i < j < |rest| ensures rest[i] != rest[j] {
          assert rest[i] == r[i + 1] && rest[j] == r[j + 1];
        }
      }
      DistinctCount(rest);
      forall k | 0 <= k < |rest| ensures rest[k] != r[0] {
        assert rest[k] == r[k + 1];
      }
      assert (set op | op in r) == (set op | op in rest) + {r[0]};
    }
  }

  /**
   * `candidates.length` counts every proc that matches the sample, each
   * once: it is the number of different names that match.
   */
  lemma CandidatesCountMatchingNames(s: Sample)
    requires WellFormedSample(s)
    ensures |Candidates(s)| == |NameSet(s)|
  {
    OpsListsEveryOpOnce();
    MatchingInIsDistinct(Ops, s);
    DistinctCount(Candidates(s));
  }

  /** `compute_part_one`: how many samples behave like three or more opcodes. */
  function CountLikeThree(samples: seq<Sample>): (n: nat)
    requires WellFormedSamples(samples)
    ensures n <= |samples|
  {
    if samples == [] then 0
    else
      var last := |samples| - 1;
      assert WellFormedSample(samples[last]);
      CountLikeThree(samples[..last]) + (if BehavesLikeThree(samples[last]) then 1 else 0)
  }

  /** The positions of the samples that behave like three or more opcodes. */
  ghost function LikeThreeAt(samples: seq<Sample>): set<int>
    requires WellFormedSamples(samples)
  {
    set i | 0 <= i < |samples| && BehavesLikeThree(samples[i])
  }

  lemma LikeThreeAtSnoc(samples: seq<Sample>)
    requires WellFormedSamples(samples) && samples != []
    ensures LikeThreeAt(samples) ==
              LikeThreeAt(samples[..|samples| - 1])
              + (if BehavesLikeThree(samples[|samples| - 1]) then {|samples| - 1} else {})
  {
    var last := |samples| - 1;
    var prefix := samples[..last];
    forall i | 0 <= i < last ensures prefix[i] == samples[i] { }
  }

  /** Part one counts exactly the positions of the samples that behave like three or more opcodes. */
  lemma {:induction false} CountLikeThreeCounts(samples: seq<Sample>)
    requires WellFormedSamples(samples)
    ensures CountLikeThree(samples) == |LikeThreeAt(samples)|
    decreases |samples|
  {
    if samples != [] {
      var last := |samples| - 1;
      CountLikeThreeCounts(samples[..last]);
      LikeThreeAtSnoc(samples);
      assert last !in LikeThreeAt(samples[..last]);
    }
  }

  // ---------------------------------------------------------------------
  // Part two: candidate sets

  /** An entry of `grouped`: an opcode number and the names still possible for it. */
  type Group = (nat, set<Op>)

  /** `Set.new(candidates)`. */
  function NameSet(s: Sample): (r: set<Op>)
    requires WellFormedSample(s)
    ensures forall op {:trigger op in r} :: op in r <==> Matches(op, s)
  {
    CandidatesAreTheMatches(s);
    set op | op in Candidates(s)
  }

  /** Some group of `groups` is for `opcode`. */
  predicate HasGroup(groups: seq<Group>, opcode: nat) {
    exists j | 0 <= j < |groups| :: groups[j].0 == opcode
  }

  /** Some group of `groups` for `opcode` holds `op`. */
  predicate Listed(groups: seq<Group>, opcode: nat, op: Op) {
    exists j | 0 <= j < |groups| :: groups[j].0 == opcode && op in groups[j].1
  }

  predicate DistinctOpcodes(groups: seq<Group>) {
    forall i, j | 0 <= i < j < |groups| :: groups[i].0 != groups[j].0
  }

  /** One sample's names united into the group of its opcode number, or a new group at the end. */
  function AddTo(groups: seq<Group>, opcode: nat, names: set<Op>): (r: seq<Group>)
  {
    if groups == [] then [(opcode, names)]
    else if groups[0].0 == opcode then [(opcode, groups[0].1 + names)] + groups[1..]
    else [groups[0]] + AddTo(groups[1..], opcode, names)
  }

  lemma HasGroupCons(g: Group, rest: seq<Group>, k: nat)
    ensures HasGroup([g] + rest, k) <==> g.0 == k || HasGroup(rest, k)
  {
    var r := [g] + rest;
    if HasGroup(rest, k) {
      var j :| 0 <= j < |rest| && rest[j].0 == k;
      assert r[j + 1] == rest[j];
    }
    if HasGroup(r, k) {
      var j :| 0 <= j < |r| && r[j].0 == k;
      if j > 0 {
        assert rest[j - 1] == r[j];
      }
    }
    assert r[0] == g;
  }

  lemma ListedCons(g: Group, rest: seq<Group>, k: nat, op: Op)
    ensures Listed([g] + rest, k, op) <==> (g.0 == k && op in g.1) || Listed(rest, k, op)
  {
    var r := [g] + rest;
    if Listed(rest, k, op) {
      var j :| 0 <= j < |rest| && rest[j].0 == k && op in rest[j].1;
      assert r[j + 1] == rest[j];
    }
    if Listed(r, k, op) {
      var j :| 0 <= j < |r| && r[j].0 == k && op in r[j].1;
      if j > 0 {
        assert rest[j - 1] == r[j];
      }
    }
    assert r[0] == g;
  }

  /** Adding to the groups adds the sample's opcode number to the numbers that have a group. */
  lemma {:induction false} AddToHasGroup(groups: seq<Group>, opcode: nat, names: set<Op>, k: nat)
    ensures HasGroup(AddTo(groups, opcode, names), k) <==> HasGroup(groups, k) || k == opcode
    decreases |groups|
  {
    if groups == [] {
      HasGroupCons((opcode, names), [], k);
      assert [(opcode, names)] + [] == [(opcode, names)];
    } else {
      assert groups == [groups[0]] + groups[1..];
      HasGroupCons(groups[0], groups[1..], k);
      if groups[0].0 == opcode {
        HasGroupCons((opcode, groups[0].1 + names), groups[1..], k);
      } else {
        AddToHasGroup(groups[1..], opcode, names, k);
        HasGroupCons(groups[0], AddTo(groups[1..], opcode, names), k);
      }
    }
  }

  /** Adding to the groups unites the sample's names with those of the group of its number. */
  lemma {:induction false} AddToListed(groups: seq<Group>, opcode: nat, names: set<Op>, k: nat, op: Op)
    ensures Listed(AddTo(groups, opcode, names), k, op) <==> Listed(groups, k, op) || (k == opcode && op in names)
    decreases |groups|
  {
    if groups == [] {
      ListedCons((opcode, names), [], k, op);
      assert [(opcode, names)] + [] == [(opcode, names)];
    } else {
      assert groups == [groups[0]] + groups[1..];
      ListedCons(groups[0], groups[1..], k, op);
      if groups[0].0 == opcode {
        ListedCons((opcode, groups[0].1 + names), groups[1..], k, op);
      } else {
        AddToListed(groups[1..], opcode, names, k, op);
        ListedCons(groups[0], AddTo(groups[1..], opcode, names), k, op);
      }
    }
  }

  /** Adding to the groups keeps one group per opcode number. */
  lemma {:induction false} AddToKeepsOpcodesDistinct(groups: seq<Group>, opcode: nat, names: set<Op>)
    requires DistinctOpcodes(groups)
    ensures DistinctOpcodes(AddTo(groups, opcode, names))
    decreases |groups|
  {
    var r := AddTo(groups, opcode, names);
    if groups != [] && groups[0].0 != opcode {
      var tail := groups[1..];
      var rest := AddTo(tail, opcode, names);
      assert DistinctOpcodes(tail) by {
        forall i, j | 0 <= i < j < |tail| ensures tail[i].0 != tail[j].0 {
          assert tail[i] == groups[i + 1] && tail[j] == groups[j + 1];
        }
      }
      AddToKeepsOpcodesDistinct(tail, opcode, names);
      AddToHasGroup(tail, opcode, names, groups[0].0);
      assert !HasGroup(tail, groups[0].0) by {
        forall m | 0 <= m < |tail| ensures tail[m].0 != groups[0].0 {
          assert tail[m] == groups[m + 1];
        }
      }
      assert r == [groups[0]] + rest;
      forall i, j | 0 <= i < j < |r| ensures r[i].0 != r[j].0 {
        if i == 0 {
          assert r[j] == rest[j - 1];
        } else {
          assert r[i] == rest[i - 1] && r[j] == rest[j - 1];
        }
      }
    } else if groups != [] {
      forall i, j | 0 <= i < j < |r| ensures r[i].0 != r[j].0 {
        assert r[i].0 == groups[i].0 && r[j].0 == groups[j].0;
      }
    }
  }

  /**
   * `to_candidates.group_by { _1.first }` with each group's sets united
   * (`inject(Set.new, &:+)`): one group per opcode number, in the order
   * the numbers first appear.
   */
  function Grouped(samples: seq<Sample>): seq<Group>
    requires WellFormedSamples(samples)
  {
    if samples == [] then []
    else
      var last := |samples| - 1;
      assert WellFormedSample(samples[last]);
      AddTo(Grouped(samples[..last]), samples[last].instruction.opcode, NameSet(samples[last]))
  }

  /** Some sample with opcode number `opcode` is matched by `op`. */
  predicate Witnessed(samples: seq<Sample>, opcode: nat, op: Op)
    requires WellFormedSamples(samples)
  {
    exists s | s in samples :: s.instruction.opcode == opcode && Matches(op, s)
  }

  /** The groups hold one entry per opcode number that some sample carries, and no other. */
  lemma {:induction false} GroupedOpcodes(samples: seq<Sample>)
    requires WellFormedSamples(samples)
    ensures DistinctOpcodes(Grouped(samples))
    ensures forall k :: HasGroup(Grouped(samples), k) <==>
                          exists i | 0 <= i < |samples| :: samples[i].instruction.opcode == k
    decreases |samples|
  {
    if samples != [] {
      var last := |samples| - 1;
      var prefix := samples[..last];
      var s := samples[last];
      GroupedOpcodes(prefix);
      AddToKeepsOpcodesDistinct(Grouped(prefix), s.instruction.opcode, NameSet(s));
      forall k ensures HasGroup(Grouped(samples), k) <==>
                       exists i | 0 <= i < |samples| :: samples[i].instruction.opcode == k {
        AddToHasGroup(Grouped(prefix), s.instruction.opcode, NameSet(s), k);
        if HasGroup(Grouped(prefix), k) {
          var i :| 0 <= i < |prefix| && prefix[i].instruction.opcode == k;
          assert samples[i].instruction.opcode == k;
        }
        if i :| 0 <= i < |samples| && samples[i].instruction.opcode == k {
          if i < last {
            assert prefix[i].instruction.opcode == k;
          }
        }
      }
    }
  }

  /**
   * A name is a candidate for an opcode number as soon as it matches ONE
   * sample carrying that number: the groups hold the union of the
   * samples' sets, not their intersection.
   */
  lemma {:induction false} GroupedIsUnion(samples: seq<Sample>, k: nat, op: Op)
    requires WellFormedSamples(samples)
    ensures Listed(Grouped(samples), k, op) <==> Witnessed(samples, k, op)
    decreases |samples|
  {
    if samples != [] {
      var last := |samples| - 1;
      var s := samples[last];
      GroupedIsUnion(samples[..last], k, op);
      AddToListed(Grouped(samples[..last]), s.instruction.opcode, NameSet(s), k, op);
      WitnessedSnoc(samples, k, op);
    }
  }

  lemma WitnessedSnoc(samples: seq<Sample>, k: nat, op: Op)
    requires WellFormedSamples(samples) && samples != []
    ensures Witnessed(samples, k, op) <==>
              || Witnessed(samples[..|samples| - 1], k, op)
              || (samples[|samples| - 1].instruction.opcode == k && Matches(op, samples[|samples| - 1]))
  {
    var last := |samples| - 1;
    assert samples == samples[..last] + [samples[last]];
  }

  // ---------------------------------------------------------------------
  // Part two: elimination

  /** The passes `compute_part_two` allows itself (`i < 1000`). */
  const MaxPasses: nat := 1000

  /** The first name of `ops` that `names` holds. */
  function FirstIn(ops: seq<Op>, names: set<Op>): (x: Op)
    requires exists op :: op in ops && op in names
    ensures x in ops && x in names
  {
    if ops[0] in names then ops[0]
    else
      assert exists op :: op in ops[1..] && op in names by {
        var op :| op in ops && op in names;
        var k :| 0 <= k < |ops| && ops[k] == op;
        assert ops[1..][k - 1] == op;
      }
      FirstIn(ops[1..], names)
  }

  /** `candidates.first` of a one-name set: its only name. */
  function Only(names: set<Op>): (x: Op)
    requires |names| == 1
    ensures names == {x}
  {
    OpsListsEveryOpOnce();
    var some :| some in names;
    assert some in Ops;
    var x := FirstIn(Ops, names);
    assert |names - {x}| == 0;
    x
  }

  /**
   * The block of `grouped.map` for one group: a one-name group is recorded
   * in `known` and kept; any other loses the names already known.
   */
  function Visit(g: Group, known: map<nat, Op>): (Group, map<nat, Op>) {
    if |g.1| == 1 then (g, known[g.0 := Only(g.1)])
    else ((g.0, g.1 - known.Values), known)
  }

  /** `grouped = grouped.map do … end`: the groups visited in order, `known` growing during the pass. */
  function Pass(groups: seq<Group>, known: map<nat, Op>): (r: (seq<Group>, map<nat, Op>))
    ensures |r.0| == |groups|
  {
    if groups == [] then ([], known)
    else
      var v := Visit(groups[0], known);
      var rest := Pass(groups[1..], v.1);
      ([v.0] + rest.0, rest.1)
  }

  /** `grouped.all? { |opcode, _| known.include?(opcode) }`. */
  predicate AllKnown(groups: seq<Group>, known: map<nat, Op>) {
    forall j | 0 <= j < |groups| :: groups[j].0 in known
  }

  /**
   * The `while` loop: passes until every opcode number is known or
   * `budget` passes are spent. The groups and `known` it ends with, and
   * the number of passes made.
   */
  function Eliminate(groups: seq<Group>, known: map<nat, Op>, budget: nat): (seq<Group>, map<nat, Op>, nat)
    decreases budget
  {
    if AllKnown(groups, known) || budget == 0 then (groups, known, 0)
    else
      var p := Pass(groups, known);
      var e := Eliminate(p.0, p.1, budget - 1);
      (e.0, e.1, e.2 + 1)
  }

  /** `g` holds the same opcode numbers as `g0`, in the same order, each with a subset of its names. */
  predicate Shrunk(g0: seq<Group>, g: seq<Group>) {
    |g| == |g0| && forall j | 0 <= j < |g| :: g[j].0 == g0[j].0 && g[j].1 <= g0[j].1
  }

  /** Every known opcode number has a group that holds exactly its known name. */
  predicate KnownAreSingletons(groups: seq<Group>, known: map<nat, Op>) {
    forall k | k in known :: exists j | 0 <= j < |groups| :: groups[j].0 == k && groups[j].1 == {known[k]}
  }

  /** A pass only takes names away (`difference`) and leaves one-name groups as they are. */
  lemma {:induction false} PassShrinks(groups: seq<Group>, known: map<nat, Op>)
    ensures Shrunk(groups, Pass(groups, known).0)
    ensures forall j | 0 <= j < |groups| && |groups[j].1| == 1 :: Pass(groups, known).0[j] == groups[j]
    decreases |groups|
  {
    if groups != [] {
      var v := Visit(groups[0], known);
      var rest := Pass(groups[1..], v.1);
      var r := Pass(groups, known);
      assert r.0 == [v.0] + rest.0;
      PassShrinks(groups[1..], v.1);
      forall j | 0 <= j < |groups|
        ensures r.0[j].0 == groups[j].0 && r.0[j].1 <= groups[j].1
        ensures |groups[j].1| == 1 ==> r.0[j] == groups[j]
      {
        if j > 0 {
          assert r.0[j] == rest.0[j - 1] && groups[j] == groups[1..][j - 1];
        }
      }
    }
  }

  /** A pass forgets no known number, and after it every one-name group's number is known. */
  lemma {:induction false} PassRecords(groups: seq<Group>, known: map<nat, Op>)
    ensures known.Keys <= Pass(groups, known).1.Keys
    ensures forall j | 0 <= j < |groups| && |groups[j].1| == 1 :: groups[j].0 in Pass(groups, known).1
    decreases |groups|
  {
    if groups != [] {
      var v := Visit(groups[0], known);
      PassRecords(groups[1..], v.1);
      forall j | 0 <= j < |groups| && |groups[j].1| == 1 ensures groups[j].0 in Pass(groups, known).1 {
        if j > 0 {
          assert groups[j] == groups[1..][j - 1];
        }
      }
    }
  }

  /**
   * Every known number keeps a one-name group holding its known name
   * through the rest of a pass: `done` holds the groups already visited,
   * `todo` those still to visit.
   */
  lemma {:induction false} PassKeepsSingletons(done: seq<Group>, todo: seq<Group>, known: map<nat, Op>)
    requires KnownAreSingletons(done + todo, known)
    ensures KnownAreSingletons(done + Pass(todo, known).0, Pass(todo, known).1)
    decreases |todo|
  {
    if todo == [] {
      assert done + Pass(todo, known).0 == done + todo;
    } else {
      var v := Visit(todo[0], known);
      var tail := todo[1..];
      var before := done + todo;
      var after := done + [v.0] + tail;
      forall k | k in v.1
        ensures exists j | 0 <= j < |after| :: after[j].0 == k && after[j].1 == {v.1[k]}
      {
        if |todo[0].1| == 1 && k == todo[0].0 {
          assert after[|done|] == todo[0];
        } else {
          var j :| 0 <= j < |before| && before[j].0 == k && before[j].1 == {known[k]};
          assert after[j] == before[j];
        }
      }
      PassKeepsSingletons(done + [v.0], tail, v.1);
      assert done + Pass(todo, known).0 == done + [v.0] + Pass(tail, v.1).0;
    }
  }

  lemma ShrunkIsTransitive(g0: seq<Group>, g1: seq<Group>, g2: seq<Group>)
    requires Shrunk(g0, g1) && Shrunk(g1, g2)
    ensures Shrunk(g0, g2)
  {
    forall j | 0 <= j < |g2| ensures g2[j].0 == g0[j].0 && g2[j].1 <= g0[j].1 {
      assert g1[j].0 == g0[j].0 && g1[j].1 <= g0[j].1;
    }
  }

  /** A whole pass keeps, for every known number, a one-name group holding its known name. */
  lemma PassKeepsKnownSingletons(groups: seq<Group>, known: map<nat, Op>)
    requires KnownAreSingletons(groups, known)
    ensures KnownAreSingletons(Pass(groups, known).0, Pass(groups, known).1)
  {
    assert [] + groups == groups;
    PassKeepsSingletons([], groups, known);
    assert [] + Pass(groups, known).0 == Pass(groups, known).0;
  }

  /**
   * The loop only narrows the groups and keeps every known number's name
   * as the one name of a group of that number.
   */
  lemma {:induction false} EliminateNarrows(groups: seq<Group>, known: map<nat, Op>, budget: nat)
    requires KnownAreSingletons(groups, known)
    ensures Shrunk(groups, Eliminate(groups, known, budget).0)
    ensures KnownAreSingletons(Eliminate(groups, known, budget).0, Eliminate(groups, known, budget).1)
    decreases budget
  {
    if !(AllKnown(groups, known) || budget == 0) {
      var p := Pass(groups, known);
      PassShrinks(groups, known);
      PassKeepsKnownSingletons(groups, known);
      EliminateNarrows(p.0, p.1, budget - 1);
      ShrunkIsTransitive(groups, p.0, Eliminate(p.0, p.1, budget - 1).0);
    } else {
      assert Shrunk(groups, groups);
    }
  }

  /** The loop stops with every number known, or after the whole budget of passes and no more. */
  lemma {:induction false} EliminateStops(groups: seq<Group>, known: map<nat, Op>, budget: nat)
    ensures Eliminate(groups, known, budget).2 <= budget
    ensures AllKnown(Eliminate(groups, known, budget).0, Eliminate(groups, known, budget).1)
            || Eliminate(groups, known, budget).2 == budget
    decreases budget
  {
    if !(AllKnown(groups, known) || budget == 0) {
      var p := Pass(groups, known);
      EliminateStops(p.0, p.1, budget - 1);
    }
  }

  /** The mapping `compute_part_two` settles on. */
  function Resolved(samples: seq<Sample>): map<nat, Op>
    requires WellFormedSamples(samples)
  {
    Eliminate(Grouped(samples), map[], MaxPasses).1
  }

  /**
   * Every opcode number the elimination settles is mapped to a name that
   * matched some sample carrying that number.
   */
  lemma ResolvedNamesAreWitnessed(samples: seq<Sample>)
    requires WellFormedSamples(samples)
    ensures forall k | k in Resolved(samples) :: Witnessed(samples, k, Resolved(samples)[k])
  {
    var g := Grouped(samples);
    var e := Eliminate(g, map[], MaxPasses);
    EliminateNarrows(g, map[], MaxPasses);
    forall k | k in e.1 ensures Witnessed(samples, k, e.1[k]) {
      GroupedIsUnion(samples, k, e.1[k]);
      var j :| 0 <= j < |e.0| && e.0[j].0 == k && e.0[j].1 == {e.1[k]};
      assert g[j].0 == k && e.1[k] in g[j].1;
      assert Listed(g, k, e.1[k]);
    }
  }

  /** One `grouped.map` pass: visits the groups in order, `known` growing as it goes. */
  method MapPass(grouped: seq<Group>, known0: map<nat, Op>) returns (next: seq<Group>, known: map<nat, Op>)
    ensures (next, known) == Pass(grouped, known0)
  {
    next := [];
    known := known0;
    var j := 0;
    assert grouped[j..] == grouped && next + Pass(grouped, known0).0 == Pass(grouped, known0).0;
    while j < |grouped|
      invariant 0 <= j <= |grouped|
      invariant Pass(grouped, known0) == (next + Pass(grouped[j..], known).0, Pass(grouped[j..], known).1)
    {
      var visited := Visit(grouped[j], known);
      PassOfSuffix(grouped, j, known, next);
      next := next + [visited.0];
      known := visited.1;
      j := j + 1;
    }
    assert next + Pass(grouped[j..], known).0 == next;
  }

  /** How `MapPass` moves on by one group. */
  lemma PassOfSuffix(grouped: seq<Group>, j: nat, known: map<nat, Op>, next: seq<Group>)
    requires j < |grouped|
    ensures next + Pass(grouped[j..], known).0
            == (next + [Visit(grouped[j], known).0]) + Pass(grouped[j + 1..], Visit(grouped[j], known).1).0
    ensures Pass(grouped[j..], known).1 == Pass(grouped[j + 1..], Visit(grouped[j], known).1).1
  {
    assert grouped[j..][0] == grouped[j] && grouped[j..][1..] == grouped[j + 1..];
  }

  /**
   * `compute_part_two`'s loop: passes over the groups while some number
   * is unknown and fewer than `MaxPasses` passes were made.
   */
  method Resolve(groups: seq<Group>) returns (known: map<nat, Op>, passes: nat)
    ensures known == Eliminate(groups, map[], MaxPasses).1
    ensures passes == Eliminate(groups, map[], MaxPasses).2
  {
    var grouped := groups;
    known := map[];
    passes := 0;
    while !AllKnown(grouped, known) && passes < MaxPasses
      invariant passes <= MaxPasses
      invariant Eliminate(groups, map[], MaxPasses).1 == Eliminate(grouped, known, MaxPasses - passes).1
      invariant Eliminate(groups, map[], MaxPasses).2 == Eliminate(grouped, known, MaxPasses - passes).2 + passes
      decreases MaxPasses - passes
    {
      grouped, known := MapPass(grouped, known);
      passes := passes + 1;
    }
  }

  // ---------------------------------------------------------------------
  // Part two: the program

  /**
   * The proc `INSTRUCTIONS[known[opcode]]` can run: the opcode number is
   * resolved, the registers it reads are among the four, and so is its output.
   */
  predicate Runnable(known: map<nat, Op>, ins: Instruction) {
    ins.opcode in known && Readable(known[ins.opcode], ins) && ins.output < 4
  }

  /** `program.each { … }` from registers `r`: the final registers, or `None` at an instruction that cannot run. */
  function Run(known: map<nat, Op>, program: seq<Instruction>, r: Registers): (res: Option<Registers>)
    requires |r| == 4
    ensures res.Some? ==> |res.value| == 4
    decreases |program|
  {
    if program == [] then Some(r)
    else if !Runnable(known, program[0]) then None
    else Run(known, program[1..], Apply(known[program[0].opcode], r, program[0]))
  }

  /** A run fails exactly when some instruction of the program cannot run, whatever the registers. */
  lemma {:induction false} RunFailsOnlyOnUnrunnable(known: map<nat, Op>, program: seq<Instruction>, r: Registers)
    requires |r| == 4
    ensures Run(known, program, r).Some? <==> forall i | 0 <= i < |program| :: Runnable(known, program[i])
    decreases |program|
  {
    if program != [] && Runnable(known, program[0]) {
      RunFailsOnlyOnUnrunnable(known, program[1..], Apply(known[program[0].opcode], r, program[0]));
      forall i | 0 <= i < |program[1..]| ensures program[1..][i] == program[i + 1] { }
      if forall i | 0 <= i < |program[1..]| :: Runnable(known, program[1..][i]) {
        forall i | 0 <= i < |program| ensures Runnable(known, program[i]) {
          if i > 0 {
            assert program[i] == program[1..][i - 1];
          }
        }
      }
    }
  }

  /** Running two programs one after the other is running their concatenation. */
  lemma {:induction false} RunConcatenation(known: map<nat, Op>, p: seq<Instruction>, q: seq<Instruction>, r: Registers)
    requires |r| == 4
    ensures Run(known, p + q, r) == (if Run(known, p, r).Some? then Run(known, q, Run(known, p, r).value) else None)
    decreases |p|
  {
    if p == [] {
      assert p + q == q;
    } else {
      assert (p + q)[0] == p[0] && (p + q)[1..] == p[1..] + q;
      if Runnable(known, p[0]) {
        RunConcatenation(known, p[1..], q, Apply(known[p[0].opcode], r, p[0]));
      }
    }
  }

  /** The registers `compute_part_two` starts the program from. */
  const Zeros: Registers := [0, 0, 0, 0]

  /** The end of `compute_part_two`: runs the program on four registers set to zero and answers register 0. */
  method RunProgram(known: map<nat, Op>, program: seq<Instruction>) returns (r: Option<nat>)
    ensures r.Some? <==> Run(known, program, Zeros).Some?
    ensures r.Some? ==> r.value == Run(known, program, Zeros).value[0]
  {
    var regs := new nat[4](_ => 0);
    assert regs[..] == Zeros;
    var k := 0;
    while k < |program|
      invariant 0 <= k <= |program| && regs.Length == 4
      invariant Run(known, program, Zeros) == Run(known, program[k..], regs[..])
    {
      assert program[k..][0] == program[k] && program[k..][1..] == program[k + 1..];
      var ins := program[k];
      if !Runnable(known, ins) {
        return None;
      }
      Execute(known[ins.opcode], regs, ins);
      k := k + 1;
    }
    assert program[k..] == [];
    return Some(regs[0]);
  }

  /** Part two's answer: register 0 after the program, with the opcode numbers resolved from the samples. */
  function PartTwo(samples: seq<Sample>, program: seq<Instruction>): Option<nat>
    requires WellFormedSamples(samples)
  {
    var final := Run(Resolved(samples), program, Zeros);
    if final.Some? then Some(final.value[0]) else None
  }

  /**
   * When part two has an answer, every instruction of the program ran as
   * a proc that matched some sample carrying its opcode number.
   */
  lemma PartTwoRunsWitnessedProcs(samples: seq<Sample>, program: seq<Instruction>)
    requires WellFormedSamples(samples) && PartTwo(samples, program).Some?
    ensures forall i | 0 <= i < |program| ::
              program[i].opcode in Resolved(samples)
              && Witnessed(samples, program[i].opcode, Resolved(samples)[program[i].opcode])
  {
    RunFailsOnlyOnUnrunnable(Resolved(samples), program, Zeros);
    ResolvedNamesAreWitnessed(samples);
  }

  /** `compute_part_two`. */
  method ComputePartTwo(samples: seq<Sample>, program: seq<Instruction>) returns (r: Option<nat>)
    requires WellFormedSamples(samples)
    ensures r == PartTwo(samples, program)
  {
    var groups := Grouped(samples);
    var known, _ := Resolve(groups);
    r := RunProgram(known, program);
  }
}
