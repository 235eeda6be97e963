/**
 * Shortest paths over empty squares: `Map#next_move_between` (day15.rb),
 * the breadth-first search that says which first step a unit takes
 * towards one target square, and how far the target then is.
 */
module Pathfinding {
  import opened Wrappers
  import opened Grid
  import opened Ordering

  /** One move: onto an orthogonally adjacent empty square. */
  predicate Step(g: Board, u: Coord, v: Coord) {
    Adjacent(u, v) && Open(g, v)
  }

  /**
   * `v` can be reached from `f` in at most `k` steps; a square in
   * `blocked` can be reached but not left.
   */
  ghost predicate Reach(g: Board, blocked: set<Coord>, f: Coord, v: Coord, k: nat)
    decreases k
  {
    if k == 0 then v == f
    else Reach(g, blocked, f, v, k - 1) ||
         exists u :: Reach(g, blocked, f, u, k - 1) && u !in blocked && Step(g, u, v)
  }

  /** `to` can be reached from `f` in at most `k` steps. */
  ghost predicate WithinSteps(g: Board, f: Coord, to: Coord, k: nat) {
    Reach(g, {}, f, to, k)
  }

  /** No empty neighbour of `from` leads to `to`. */
  ghost predicate NoPath(g: Board, from: Coord, to: Coord)
    requires Bordered(g) && Interior(g, from)
  {
    forall f, k: nat :: f in EmptyAdjacents(g, from) ==> !WithinSteps(g, f, to, k)
  }

  /**
   * What `next_move_between(from, to)` answers when `to` is reachable:
   * `d` is the length of a shortest path from `from` to `to` whose first
   * step is onto an empty neighbour, and `step` is the first of those
   * neighbours in reading order that starts such a path.
   */
  ghost predicate IsBestFirstStep(g: Board, from: Coord, to: Coord, step: Coord, d: nat)
    requires Bordered(g) && Interior(g, from)
  {
    && d >= 1
    && step in EmptyAdjacents(g, from)
    && WithinSteps(g, step, to, d - 1)
    && (forall f, k: nat :: f in EmptyAdjacents(g, from) && k < d - 1 ==> !WithinSteps(g, f, to, k))
    && (forall f :: f in EmptyAdjacents(g, from) && WithinSteps(g, f, to, d - 1) ==> !ReadingBefore(f, step))
  }

  /** There is at most one best first step and one distance. */
  lemma BestFirstStepIsUnique(g: Board, from: Coord, to: Coord, s1: Coord, d1: nat, s2: Coord, d2: nat)
    requires Bordered(g) && Interior(g, from)
    requires IsBestFirstStep(g, from, to, s1, d1) && IsBestFirstStep(g, from, to, s2, d2)
    ensures s1 == s2 && d1 == d2
  {
    assert WithinSteps(g, s1, to, d1 - 1) && WithinSteps(g, s2, to, d2 - 1);
    ReadingOrderIsStrictTotal(s1, s2, s1);
  }

  // ---------------------------------------------------------------------
  // Facts about reachability

  /**
   * Among the empty neighbours of `from`, the fewest moves after the first
   * step in which one of them reaches `to`.
   */
  lemma {:induction false} LeastDistance(g: Board, from: Coord, to: Coord, k: nat) returns (k0: nat)
    requires Bordered(g) && Interior(g, from)
    requires exists f :: f in EmptyAdjacents(g, from) && WithinSteps(g, f, to, k)
    ensures k0 <= k && exists f :: f in EmptyAdjacents(g, from) && WithinSteps(g, f, to, k0)
    ensures forall f, j: nat :: f in EmptyAdjacents(g, from) && j < k0 ==> !WithinSteps(g, f, to, j)
    decreases k
  {
    if k > 0 && exists f :: f in EmptyAdjacents(g, from) && WithinSteps(g, f, to, k - 1) {
      k0 := LeastDistance(g, from, to, k - 1);
    } else {
      k0 := k;
      forall f, j: nat | f in EmptyAdjacents(g, from) && j < k ensures !WithinSteps(g, f, to, j) {
        ReachGrows(g, {}, f, to, j, k - 1);
      }
    }
  }

  /** When some empty neighbour leads to `to`, a best first step exists. */
  lemma BestFirstStepExists(g: Board, from: Coord, to: Coord)
    requires Bordered(g) && Interior(g, from) && !NoPath(g, from, to)
    ensures exists p: (Coord, nat) :: IsBestFirstStep(g, from, to, p.0, p.1)
  {
    var ea := EmptyAdjacents(g, from);
    var f, k: nat :| f in ea && WithinSteps(g, f, to, k);
    var k0 := LeastDistance(g, from, to, k);
    var candidates := set c | c in ea && WithinSteps(g, c, to, k0);
    var f0 :| f0 in ea && WithinSteps(g, f0, to, k0);
    assert f0 in candidates;
    ReadingFirstExists(candidates);
    var step :| step in candidates && forall c {:trigger c in candidates} | c in candidates :: !ReadingBefore(c, step);
    BestFirstStepFrom(g, from, to, ea, candidates, step, k0);
  }

  lemma BestFirstStepFrom(g: Board, from: Coord, to: Coord, ea: seq<Coord>, candidates: set<Coord>, step: Coord, k0: nat)
    requires Bordered(g) && Interior(g, from) && ea == EmptyAdjacents(g, from)
    requires forall c :: c in candidates <==> c in ea && WithinSteps(g, c, to, k0)
    requires forall f, j: nat :: f in ea && j < k0 ==> !WithinSteps(g, f, to, j)
    requires step in candidates && forall c {:trigger c in candidates} | c in candidates :: !ReadingBefore(c, step)
    ensures IsBestFirstStep(g, from, to, (step, k0 + 1).0, (step, k0 + 1).1)
  {
  }

  /**
   * What `next_move_between(from, to)` answers: `nil` when no empty
   * neighbour of `from` leads to `to`, and otherwise the best first step
   * and the distance.
   */
  ghost function BestFirstStep(g: Board, from: Coord, to: Coord): (r: Option<(Coord, nat)>)
    requires Bordered(g) && Interior(g, from)
    ensures r.None? <==> NoPath(g, from, to)
    ensures r.Some? ==> IsBestFirstStep(g, from, to, r.value.0, r.value.1)
  {
    if NoPath(g, from, to) then None
    else
      BestFirstStepExists(g, from, to);
      var p: (Coord, nat) :| IsBestFirstStep(g, from, to, p.0, p.1);
      Some(p)
  }

  lemma {:induction false} ReachGrows(g: Board, b: set<Coord>, f: Coord, v: Coord, j: nat, k: nat)
    requires j <= k
    ensures Reach(g, b, f, v, j) ==> Reach(g, b, f, v, k)
    decreases k
  {
    if j < k {
      ReachGrows(g, b, f, v, j, k - 1);
    }
  }

  lemma ReachStep(g: Board, b: set<Coord>, f: Coord, u: Coord, v: Coord, j: nat, k: nat)
    ensures j < k && Reach(g, b, f, u, j) && u !in b && Step(g, u, v) ==> Reach(g, b, f, v, k)
  {
    if j < k {
      ReachGrows(g, b, f, v, j + 1, k);
    }
  }

  /** `v` is exactly `k` steps from `f`. */
  ghost predicate Dist(g: Board, b: set<Coord>, f: Coord, v: Coord, k: nat) {
    Reach(g, b, f, v, k) && (k == 0 || !Reach(g, b, f, v, k - 1))
  }

  lemma DistIsUnique(g: Board, b: set<Coord>, f: Coord, v: Coord, j: nat, k: nat)
    requires Dist(g, b, f, v, j) && Dist(g, b, f, v, k)
    ensures j == k
  {
    if j < k {
      ReachGrows(g, b, f, v, j, k - 1);
    } else if k < j {
      ReachGrows(g, b, f, v, k, j - 1);
    }
  }

  lemma {:induction false} DistOf(g: Board, b: set<Coord>, f: Coord, v: Coord, k: nat) returns (j: nat)
    requires Reach(g, b, f, v, k)
    ensures j <= k && Dist(g, b, f, v, j)
    decreases k
  {
    if k == 0 || !Reach(g, b, f, v, k - 1) {
      j := k;
    } else {
      j := DistOf(g, b, f, v, k - 1);
    }
  }

  /** A square `k > 0` steps away is one step from a square `k - 1` steps away. */
  lemma DistPredecessor(g: Board, b: set<Coord>, f: Coord, v: Coord, k: nat) returns (u: Coord)
    requires k > 0 && Dist(g, b, f, v, k)
    ensures Dist(g, b, f, u, k - 1) && u !in b && Step(g, u, v)
  {
    u :| Reach(g, b, f, u, k - 1) && u !in b && Step(g, u, v);
    var j := DistOf(g, b, f, u, k - 1);
    ReachStep(g, b, f, u, v, j, k - 1);
  }

  lemma {:induction false} BlockedReachIsReach(g: Board, to: Coord, f: Coord, v: Coord, k: nat)
    ensures Reach(g, {to}, f, v, k) ==> Reach(g, {}, f, v, k)
    decreases k
  {
    if k > 0 {
      BlockedReachIsReach(g, to, f, v, k - 1);
      if Reach(g, {to}, f, v, k) && !Reach(g, {to}, f, v, k - 1) {
        var u :| Reach(g, {to}, f, u, k - 1) && u !in {to} && Step(g, u, v);
        BlockedReachIsReach(g, to, f, u, k - 1);
      }
    }
  }

  lemma {:induction false} ReachBeforeTarget(g: Board, to: Coord, f: Coord, v: Coord, k: nat)
    requires k == 0 || !Reach(g, {to}, f, to, k - 1)
    ensures Reach(g, {}, f, v, k) ==> Reach(g, {to}, f, v, k)
    decreases k
  {
    if k > 0 {
      if k >= 2 {
        ReachGrows(g, {to}, f, to, k - 2, k - 1);
      }
      ReachBeforeTarget(g, to, f, v, k - 1);
      if Reach(g, {}, f, v, k) && !Reach(g, {}, f, v, k - 1) {
        var u :| Reach(g, {}, f, u, k - 1) && u !in {} && Step(g, u, v);
        ReachBeforeTarget(g, to, f, u, k - 1);
      }
    }
  }

  /**
   * Reaching `to` within `k` steps does not depend on whether a search
   * goes on from `to` once it got there (the Ruby search does not).
   */
  lemma ReachIgnoresTargetExpansion(g: Board, to: Coord, f: Coord, k: nat)
    ensures WithinSteps(g, f, to, k) <==> Reach(g, {to}, f, to, k)
  {
    if Reach(g, {}, f, to, k) {
      var j := DistOf(g, {}, f, to, k);
      if j > 0 {
        BlockedReachIsReach(g, to, f, to, j - 1);
      }
      ReachBeforeTarget(g, to, f, to, j);
      ReachGrows(g, {to}, f, to, j, k);
    }
    BlockedReachIsReach(g, to, f, to, k);
  }

  // ---------------------------------------------------------------------
  // The search of `next_move_between`

  /** An element of `to_visit`: `[visiting, first_node, distance]`. */
  datatype Entry = Entry(visiting: Coord, first: Coord, distance: nat)

  /**
   * The entries `neighbours.each` appends: one per neighbour not yet
   * visited from the same first step, in the order of `ns`.
   */
  function Pushed(ns: seq<Coord>, f: Coord, d: nat, visited: set<(Coord, Coord)>): seq<Entry>
  {
    if ns == [] then []
    else
      var last := ns[|ns| - 1];
      Pushed(ns[..|ns| - 1], f, d, visited) + (if (f, last) !in visited then [Entry(last, f, d)] else [])
  }

  /** The entries appended are exactly the unvisited neighbours, from `f`, at distance `d`. */
  lemma {:induction false} PushedEntries(ns: seq<Coord>, f: Coord, d: nat, visited: set<(Coord, Coord)>)
    ensures forall e {:trigger e in Pushed(ns, f, d, visited)} :: e in Pushed(ns, f, d, visited) ==>
              e.visiting in ns && e.first == f && e.distance == d && (f, e.visiting) !in visited
    ensures forall n {:trigger n in ns} :: n in ns && (f, n) !in visited ==> Entry(n, f, d) in Pushed(ns, f, d, visited)
    decreases |ns|
  {
    if ns != [] {
      var init := ns[..|ns| - 1];
      PushedEntries(init, f, d, visited);
      assert ns == init + [ns[|ns| - 1]];
    }
  }

  /**
   * `v` is exactly `d` moves from `from` when the first move is onto `f`
   * (the count the queue keeps: `f` itself is at 1).
   */
  ghost predicate Exact(g: Board, to: Coord, f: Coord, v: Coord, d: nat) {
    d >= 1 && Dist(g, {to}, f, v, d - 1)
  }

  lemma ExactIsUnique(g: Board, to: Coord, f: Coord, v: Coord, d1: nat, d2: nat)
    requires Exact(g, to, f, v, d1) && Exact(g, to, f, v, d2)
    ensures d1 == d2
  {
    DistIsUnique(g, {to}, f, v, d1 - 1, d2 - 1);
  }

  /** What the tail of a list holds, the list holds. */
  lemma InTail<T>(q: seq<T>)
    requires q != []
    ensures forall x {:trigger x in q[1..]} | x in q[1..] :: x in q
  {
    assert q == [q[0]] + q[1..];
  }

  /** Distances never decrease along the queue. */
  ghost predicate Ascending(q: seq<Entry>)
    decreases |q|
  {
    |q| <= 1 || (q[0].distance <= q[1].distance && Ascending(q[1..]))
  }

  lemma {:induction false} ConstantIsAscending(q: seq<Entry>, d: nat)
    requires forall x {:trigger x in q} | x in q :: x.distance == d
    ensures Ascending(q)
    decreases |q|
  {
    if |q| > 1 {
      assert q[0] in q && q[1] in q;
      InTail(q);
      ConstantIsAscending(q[1..], d);
    }
  }

  /** Appending entries one move further than everything queued keeps the order. */
  lemma {:induction false} AscendingAppend(a: seq<Entry>, b: seq<Entry>, d: nat)
    requires Ascending(a) && forall x {:trigger x in a} | x in a :: x.distance <= d
    requires forall x {:trigger x in b} | x in b :: x.distance == d
    ensures Ascending(a + b)
    decreases |a|
  {
    if a == [] {
      assert a + b == b;
      ConstantIsAscending(b, d);
    } else {
      assert (a + b)[1..] == a[1..] + b;
      InTail(a);
      AscendingAppend(a[1..], b, d);
      if |a| == 1 && b != [] {
        assert a[0] in a && b[0] in b;
      }
    }
  }

  ghost predicate QueueSound(g: Board, to: Coord, starts: set<Coord>, toVisit: seq<Entry>, level: nat) {
    && (forall e {:trigger e in toVisit} | e in toVisit ::
          && e.first in starts && Open(g, e.visiting) && e.distance >= 1 && level <= e.distance <= level + 1
          && Reach(g, {to}, e.first, e.visiting, e.distance - 1))
    && Ascending(toVisit)
  }

  ghost predicate VisitedSound(g: Board, to: Coord, starts: set<Coord>, visited: set<(Coord, Coord)>, level: nat) {
    forall p {:trigger p in visited} | p in visited :: p.0 in starts && Open(g, p.1) && level >= 1 && Reach(g, {to}, p.0, p.1, level - 1)
  }

  /** Every pair up to the current level is visited or waiting with its exact distance. */
  ghost predicate Complete(g: Board, to: Coord, starts: set<Coord>, toVisit: seq<Entry>,
                           visited: set<(Coord, Coord)>, level: nat) {
    forall f, v, d: nat {:trigger Exact(g, to, f, v, d)} | f in starts && d <= level && Exact(g, to, f, v, d) ::
      (f, v) in visited || Entry(v, f, d) in toVisit
  }

  /** Every next square after a visited one (other than `to`) is visited or waiting one move further. */
  ghost predicate Closed(g: Board, to: Coord, toVisit: seq<Entry>, visited: set<(Coord, Coord)>) {
    forall f, u, v, d: nat | (f, u) in visited && u != to && Exact(g, to, f, u, d) && Step(g, u, v) ::
      (f, v) in visited || Entry(v, f, d + 1) in toVisit
  }

  ghost predicate OutputSound(g: Board, to: Coord, visited: set<(Coord, Coord)>, output: seq<(Coord, nat)>,
                              minDistance: Option<nat>, level: nat) {
    && (forall o {:trigger o in output} | o in output :: (o.0, to) in visited && Exact(g, to, o.0, to, o.1))
    && (forall f, d: nat {:trigger Exact(g, to, f, to, d)} | (f, to) in visited && Exact(g, to, f, to, d) :: (f, d) in output)
    && (minDistance.None? <==> output == [])
    && (minDistance.Some? ==> minDistance.value <= level && forall o {:trigger o in output} | o in output :: o.1 == minDistance.value)
  }

  ghost predicate SearchInv(g: Board, to: Coord, starts: set<Coord>, toVisit: seq<Entry>, visited: set<(Coord, Coord)>,
                            output: seq<(Coord, nat)>, minDistance: Option<nat>, level: nat) {
    && level >= 1
    && QueueSound(g, to, starts, toVisit, level)
    && VisitedSound(g, to, starts, visited, level)
    && Complete(g, to, starts, toVisit, visited, level)
    && Closed(g, to, toVisit, visited)
    && OutputSound(g, to, visited, output, minDistance, level)
  }

  /** What the search has found once it stops: the first steps that reach `to` soonest, and how soon. */
  ghost predicate Characterized(g: Board, to: Coord, starts: set<Coord>, output: seq<(Coord, nat)>,
                                minDistance: Option<nat>) {
    && (forall o {:trigger o in output} | o in output ::
          && o.0 in starts && minDistance.Some? && o.1 == minDistance.value && o.1 >= 1
          && Reach(g, {to}, o.0, to, o.1 - 1))
    && (minDistance.None? ==> output == [] && forall f, k: nat | f in starts :: !Reach(g, {to}, f, to, k))
    && (minDistance.Some? ==>
          && output != [] && minDistance.value >= 1
          && (forall f, k: nat | f in starts && k + 1 < minDistance.value :: !Reach(g, {to}, f, to, k))
          && (forall f {:trigger f in starts} | f in starts && Reach(g, {to}, f, to, minDistance.value - 1) :: (f, minDistance.value) in output))
  }

  /** The queue is ordered by distance, so nothing in it is nearer than its head. */
  lemma {:induction false} QueueFloor(q: seq<Entry>)
    requires q != [] && Ascending(q)
    ensures forall x {:trigger x in q} | x in q :: x.distance >= q[0].distance
    decreases |q|
  {
    if |q| > 1 {
      QueueFloor(q[1..]);
      assert q == [q[0]] + q[1..];
    }
  }

  lemma InitialSearch(g: Board, to: Coord, firstSteps: seq<Coord>, starts: set<Coord>, toVisit: seq<Entry>)
    requires starts == set s | s in firstSteps
    requires forall s :: s in firstSteps ==> Open(g, s)
    requires |toVisit| == |firstSteps|
    requires forall i :: 0 <= i < |toVisit| ==> toVisit[i] == Entry(firstSteps[i], firstSteps[i], 1)
    ensures SearchInv(g, to, starts, toVisit, {}, [], None, 1)
  {
    forall e | e in toVisit
      ensures e.first in starts && Open(g, e.visiting) && e.distance == 1 && Reach(g, {to}, e.first, e.visiting, 0)
    {
      var i :| 0 <= i < |toVisit| && toVisit[i] == e;
      assert e.first == firstSteps[i];
    }
    ConstantIsAscending(toVisit, 1);
    forall f, v, d: nat | f in starts && d <= 1 && Exact(g, to, f, v, d)
      ensures Entry(v, f, d) in toVisit
    {
      var i :| 0 <= i < |firstSteps| && firstSteps[i] == f;
      assert toVisit[i] == Entry(f, f, 1);
    }
  }

  lemma LevelUp(g: Board, to: Coord, starts: set<Coord>, q: seq<Entry>, visited: set<(Coord, Coord)>,
                output: seq<(Coord, nat)>, minDistance: Option<nat>, level: nat)
    requires SearchInv(g, to, starts, q, visited, output, minDistance, level)
    requires q != [] && q[0].distance == level + 1
    ensures SearchInv(g, to, starts, q, visited, output, minDistance, level + 1)
  {
    QueueFloor(q);
    forall p | p in visited ensures Reach(g, {to}, p.0, p.1, level) {
      ReachGrows(g, {to}, p.0, p.1, level - 1, level);
    }
    forall f, v, d: nat | f in starts && d <= level + 1 && Exact(g, to, f, v, d)
      ensures (f, v) in visited || Entry(v, f, d) in q
    {
      if d == level + 1 {
        var u := DistPredecessor(g, {to}, f, v, d - 1);
        assert Exact(g, to, f, u, level);
        assert Entry(u, f, level) !in q;
      }
    }
  }

  /** The head of the queue is at the current level or opens the next one. */
  lemma CatchUp(g: Board, to: Coord, starts: set<Coord>, q: seq<Entry>, visited: set<(Coord, Coord)>,
                output: seq<(Coord, nat)>, minDistance: Option<nat>, level: nat) returns (level': nat)
    requires SearchInv(g, to, starts, q, visited, output, minDistance, level)
    requires q != []
    ensures SearchInv(g, to, starts, q, visited, output, minDistance, level') && q[0].distance == level'
  {
    assert q[0] in q;
    if q[0].distance == level {
      level' := level;
    } else {
      LevelUp(g, to, starts, q, visited, output, minDistance, level);
      level' := level + 1;
    }
  }

  lemma PopVisited(g: Board, to: Coord, starts: set<Coord>, q: seq<Entry>, visited: set<(Coord, Coord)>,
                   output: seq<(Coord, nat)>, minDistance: Option<nat>, level: nat)
    requires SearchInv(g, to, starts, q, visited, output, minDistance, level)
    requires q != [] && (q[0].first, q[0].visiting) in visited
    ensures SearchInv(g, to, starts, q[1..], visited, output, minDistance, level)
  {
    assert q == [q[0]] + q[1..];
    InTail(q);
    forall f, v, d: nat | f in starts && d <= level && Exact(g, to, f, v, d)
      ensures (f, v) in visited || Entry(v, f, d) in q[1..]
    {
    }
    forall f, u, v, d: nat | (f, u) in visited && u != to && Exact(g, to, f, u, d) && Step(g, u, v)
      ensures (f, v) in visited || Entry(v, f, d + 1) in q[1..]
    {
    }
  }

  /** The first time a pair is taken from the queue, its distance is exact. */
  lemma VisitIsExact(g: Board, to: Coord, starts: set<Coord>, q: seq<Entry>, visited: set<(Coord, Coord)>,
                     output: seq<(Coord, nat)>, minDistance: Option<nat>, level: nat)
    requires SearchInv(g, to, starts, q, visited, output, minDistance, level)
    requires q != [] && q[0].distance == level && (q[0].first, q[0].visiting) !in visited
    ensures Exact(g, to, q[0].first, q[0].visiting, level)
  {
    var e := q[0];
    QueueFloor(q);
    assert e in q;
    var j := DistOf(g, {to}, e.first, e.visiting, level - 1);
    assert Exact(g, to, e.first, e.visiting, j + 1);
    assert Entry(e.visiting, e.first, j + 1) in q ==> j + 1 >= level;
  }

  lemma VisitTarget(g: Board, to: Coord, starts: set<Coord>, q: seq<Entry>, visited: set<(Coord, Coord)>,
                    output: seq<(Coord, nat)>, minDistance: Option<nat>, level: nat)
    requires SearchInv(g, to, starts, q, visited, output, minDistance, level)
    requires q != [] && q[0].distance == level && (q[0].first, q[0].visiting) !in visited
    requires q[0].visiting == to
    requires !(minDistance.Some? && q[0].distance > minDistance.value)
    ensures (q[0].first, q[0].distance) !in output
    ensures SearchInv(g, to, starts, q[1..], visited + {(q[0].first, q[0].visiting)},
                      output + [(q[0].first, q[0].distance)], Some(q[0].distance), level)
  {
    var e := q[0];
    var visited', output' := visited + {(e.first, e.visiting)}, output + [(e.first, e.distance)];
    VisitIsExact(g, to, starts, q, visited, output, minDistance, level);
    assert e in q;
    assert q == [q[0]] + q[1..];
    InTail(q);
    forall o | o in output' ensures o.1 == e.distance {
      if o in output {
        assert o.1 <= level;
      }
    }
    forall f, d: nat | (f, to) in visited' && Exact(g, to, f, to, d) ensures (f, d) in output' {
      if f == e.first {
        ExactIsUnique(g, to, f, to, d, level);
      }
    }
    forall f, v, d: nat | f in starts && d <= level && Exact(g, to, f, v, d)
      ensures (f, v) in visited' || Entry(v, f, d) in q[1..]
    {
    }
    forall f, u, v, d: nat | (f, u) in visited' && u != to && Exact(g, to, f, u, d) && Step(g, u, v)
      ensures (f, v) in visited' || Entry(v, f, d + 1) in q[1..]
    {
    }
  }

  /** The queue after `neighbours.each` has appended the next squares. */
  lemma ExpandedQueue(g: Board, to: Coord, starts: set<Coord>, q: seq<Entry>, level: nat, pushed: seq<Entry>)
    requires QueueSound(g, to, starts, q, level)
    requires q != [] && level >= 1 && q[0].distance == level && Reach(g, {to}, q[0].first, q[0].visiting, level - 1)
    requires q[0].visiting != to
    requires forall x {:trigger x in pushed} | x in pushed :: x.first == q[0].first && x.distance == q[0].distance + 1 && Step(g, q[0].visiting, x.visiting)
    ensures QueueSound(g, to, starts, q[1..] + pushed, level)
  {
    var e := q[0];
    var q' := q[1..] + pushed;
    assert e in q;
    InTail(q);
    forall x | x in q'
      ensures x.first in starts && Open(g, x.visiting) && x.distance >= 1
      ensures Reach(g, {to}, x.first, x.visiting, x.distance - 1)
    {
      if x in pushed {
        ReachStep(g, {to}, e.first, e.visiting, x.visiting, level - 1, level);
      } else {
        assert x in q[1..];
      }
    }
    forall x | x in q[1..] ensures x.distance <= level + 1 {
      assert x in q;
    }
    AscendingAppend(q[1..], pushed, level + 1);
  }

  lemma PushedSteps(g: Board, ns: seq<Coord>, u: Coord, f: Coord, d: nat, visited: set<(Coord, Coord)>)
    requires forall n :: n in ns <==> Step(g, u, n)
    ensures forall x {:trigger x in Pushed(ns, f, d, visited)} | x in Pushed(ns, f, d, visited) :: x.first == f && x.distance == d && Step(g, u, x.visiting)
  {
    PushedEntries(ns, f, d, visited);
  }

  lemma ExpandComplete(g: Board, to: Coord, starts: set<Coord>, q: seq<Entry>, visited: set<(Coord, Coord)>,
                       level: nat, pushed: seq<Entry>)
    requires Complete(g, to, starts, q, visited, level)
    requires q != []
    ensures Complete(g, to, starts, q[1..] + pushed, visited + {(q[0].first, q[0].visiting)}, level)
  {
    var visited' := visited + {(q[0].first, q[0].visiting)};
    assert q == [q[0]] + q[1..];
    forall f, v, d: nat | f in starts && d <= level && Exact(g, to, f, v, d)
      ensures (f, v) in visited' || Entry(v, f, d) in q[1..] + pushed
    {
      if (f, v) !in visited' {
        assert Entry(v, f, d) in q[1..];
      }
    }
  }

  lemma ExpandClosed(g: Board, to: Coord, q: seq<Entry>, visited: set<(Coord, Coord)>, level: nat, pushed: seq<Entry>)
    requires Closed(g, to, q, visited)
    requires q != [] && q[0].distance == level && Exact(g, to, q[0].first, q[0].visiting, level)
    requires forall v {:trigger Step(g, q[0].visiting, v)} | Step(g, q[0].visiting, v) && (q[0].first, v) !in visited + {(q[0].first, q[0].visiting)} ::
               Entry(v, q[0].first, q[0].distance + 1) in pushed
    ensures Closed(g, to, q[1..] + pushed, visited + {(q[0].first, q[0].visiting)})
  {
    var e := q[0];
    var visited' := visited + {(e.first, e.visiting)};
    forall f, u, v, d: nat | (f, u) in visited' && u != to && Exact(g, to, f, u, d) && Step(g, u, v)
      ensures (f, v) in visited' || Entry(v, f, d + 1) in q[1..] + pushed
    {
      if (f, u) == (e.first, e.visiting) {
        ExactIsUnique(g, to, f, u, d, level);
      } else {
        OldNextSquare(g, to, q, visited, f, u, v, d);
      }
    }
  }

  lemma PushedCovers(g: Board, ns: seq<Coord>, u: Coord, f: Coord, d: nat, visited: set<(Coord, Coord)>)
    requires forall n :: n in ns <==> Step(g, u, n)
    ensures forall v {:trigger Step(g, u, v)} | Step(g, u, v) && (f, v) !in visited :: Entry(v, f, d) in Pushed(ns, f, d, visited)
  {
    PushedEntries(ns, f, d, visited);
  }

  lemma OldNextSquare(g: Board, to: Coord, q: seq<Entry>, visited: set<(Coord, Coord)>, f: Coord, u: Coord, v: Coord, d: nat)
    requires Closed(g, to, q, visited) && q != []
    requires (f, u) in visited && u != to && Exact(g, to, f, u, d) && Step(g, u, v)
    ensures (f, v) in visited + {(q[0].first, q[0].visiting)} || Entry(v, f, d + 1) in q[1..]
  {
    assert q == [q[0]] + q[1..];
  }

  lemma VisitExpand(g: Board, to: Coord, starts: set<Coord>, q: seq<Entry>, visited: set<(Coord, Coord)>,
                    output: seq<(Coord, nat)>, minDistance: Option<nat>, level: nat, pushed: seq<Entry>)
    requires SearchInv(g, to, starts, q, visited, output, minDistance, level)
    requires q != [] && q[0].distance == level && (q[0].first, q[0].visiting) !in visited
    requires q[0].visiting != to
    requires Bordered(g) && Interior(g, q[0].visiting)
    requires pushed == Pushed(EmptyAdjacents(g, q[0].visiting), q[0].first, q[0].distance + 1,
                              visited + {(q[0].first, q[0].visiting)})
    ensures SearchInv(g, to, starts, q[1..] + pushed, visited + {(q[0].first, q[0].visiting)}, output, minDistance, level)
  {
    var e := q[0];
    var ns := EmptyAdjacents(g, e.visiting);
    var visited' := visited + {(e.first, e.visiting)};
    assert e in q;
    VisitIsExact(g, to, starts, q, visited, output, minDistance, level);
    PushedSteps(g, ns, e.visiting, e.first, e.distance + 1, visited');
    ExpandedQueue(g, to, starts, q, level, pushed);
    ExpandComplete(g, to, starts, q, visited, level, pushed);
    PushedCovers(g, ns, e.visiting, e.first, e.distance + 1, visited');
    ExpandClosed(g, to, q, visited, level, pushed);
    AddVisited(g, to, starts, visited, level, e.first, e.visiting);
    ExpandOutput(g, to, visited, output, minDistance, level, e.first, e.visiting);
  }

  lemma AddVisited(g: Board, to: Coord, starts: set<Coord>, visited: set<(Coord, Coord)>, level: nat, f: Coord, v: Coord)
    requires VisitedSound(g, to, starts, visited, level)
    requires f in starts && Open(g, v) && level >= 1 && Reach(g, {to}, f, v, level - 1)
    ensures VisitedSound(g, to, starts, visited + {(f, v)}, level)
  {
  }

  lemma ExpandOutput(g: Board, to: Coord, visited: set<(Coord, Coord)>, output: seq<(Coord, nat)>,
                     minDistance: Option<nat>, level: nat, f: Coord, v: Coord)
    requires OutputSound(g, to, visited, output, minDistance, level)
    requires v != to
    ensures OutputSound(g, to, visited + {(f, v)}, output, minDistance, level)
  {
  }

  /** The search stops at the first entry farther than the targets it has found. */
  lemma StopEarly(g: Board, to: Coord, starts: set<Coord>, q: seq<Entry>, visited: set<(Coord, Coord)>,
                  output: seq<(Coord, nat)>, minDistance: Option<nat>, level: nat)
    requires SearchInv(g, to, starts, q, visited, output, minDistance, level)
    requires q != [] && q[0].distance == level
    requires minDistance.Some? && level > minDistance.value
    ensures Characterized(g, to, starts, output, minDistance)
  {
    var m := minDistance.value;
    QueueFloor(q);
    forall f, k: nat | f in starts && k + 1 <= m && Reach(g, {to}, f, to, k)
      ensures exists o :: o in output && o.0 == f && o.1 <= k + 1
    {
      var j := DistOf(g, {to}, f, to, k);
      assert Exact(g, to, f, to, j + 1);
      assert Entry(to, f, j + 1) !in q;
      assert (f, j + 1) in output;
    }
    forall o | o in output ensures Reach(g, {to}, o.0, to, o.1 - 1) {
    }
    assert output[0] in output;
  }

  lemma {:induction false} DrainedVisitsAll(g: Board, to: Coord, starts: set<Coord>, visited: set<(Coord, Coord)>,
                                            output: seq<(Coord, nat)>, minDistance: Option<nat>, level: nat,
                                            f: Coord, v: Coord, d: nat)
    requires SearchInv(g, to, starts, [], visited, output, minDistance, level)
    requires f in starts && Exact(g, to, f, v, d)
    ensures (f, v) in visited
    decreases d
  {
    if d > level {
      var u := DistPredecessor(g, {to}, f, v, d - 1);
      assert Exact(g, to, f, u, d - 1);
      DrainedVisitsAll(g, to, starts, visited, output, minDistance, level, f, u, d - 1);
    }
  }

  /** The search ran out of squares to visit. */
  lemma Drained(g: Board, to: Coord, starts: set<Coord>, visited: set<(Coord, Coord)>,
                output: seq<(Coord, nat)>, minDistance: Option<nat>, level: nat)
    requires SearchInv(g, to, starts, [], visited, output, minDistance, level)
    ensures Characterized(g, to, starts, output, minDistance)
  {
    forall f, k: nat | f in starts && Reach(g, {to}, f, to, k)
      ensures exists o :: o in output && o.0 == f && o.1 <= k + 1
    {
      var j := DistOf(g, {to}, f, to, k);
      assert Exact(g, to, f, to, j + 1);
      DrainedVisitsAll(g, to, starts, visited, output, minDistance, level, f, to, j + 1);
      assert (f, j + 1) in output;
    }
    forall o | o in output ensures Reach(g, {to}, o.0, to, o.1 - 1) {
    }
    if output != [] {
      assert output[0] in output;
    }
  }

  /** `output.uniq.sort_by { |neighbour, _| neighbour.reverse }.first`. */
  function FirstInReadingOrder(s: seq<(Coord, nat)>): (r: (Coord, nat))
    requires s != []
    ensures r in s
    ensures forall o {:trigger o in s} :: o in s ==> !ReadingBefore(o.0, r.0)
  {
    if |s| == 1 then s[0]
    else
      var t := FirstInReadingOrder(s[1..]);
      assert s == [s[0]] + s[1..];
      if ReadingBefore(s[0].0, t.0) then s[0] else t
  }

  lemma ConcludeNoPath(g: Board, from: Coord, to: Coord, starts: set<Coord>, output: seq<(Coord, nat)>,
                       minDistance: Option<nat>)
    requires Bordered(g) && Interior(g, from)
    requires forall s :: s in starts <==> s in EmptyAdjacents(g, from)
    requires Characterized(g, to, starts, output, minDistance)
    ensures output == [] <==> NoPath(g, from, to)
  {
    if output == [] {
      forall f, k: nat | f in EmptyAdjacents(g, from) ensures !WithinSteps(g, f, to, k) {
        ReachIgnoresTargetExpansion(g, to, f, k);
      }
    } else {
      var o := output[0];
      assert o in output;
      ReachIgnoresTargetExpansion(g, to, o.0, o.1 - 1);
    }
  }

  lemma ConcludeStep(g: Board, from: Coord, to: Coord, starts: set<Coord>, output: seq<(Coord, nat)>,
                     minDistance: Option<nat>)
    requires Bordered(g) && Interior(g, from)
    requires forall s :: s in starts <==> s in EmptyAdjacents(g, from)
    requires Characterized(g, to, starts, output, minDistance)
    requires output != []
    ensures IsBestFirstStep(g, from, to, FirstInReadingOrder(output).0, FirstInReadingOrder(output).1)
  {
    var best := FirstInReadingOrder(output);
    var step, d := best.0, best.1;
    ReachIgnoresTargetExpansion(g, to, step, d - 1);
    forall f, k: nat | f in EmptyAdjacents(g, from) && k < d - 1 ensures !WithinSteps(g, f, to, k) {
      ReachIgnoresTargetExpansion(g, to, f, k);
    }
    forall f | f in EmptyAdjacents(g, from) && WithinSteps(g, f, to, d - 1) ensures !ReadingBefore(f, step) {
      ReachIgnoresTargetExpansion(g, to, f, d - 1);
      assert (f, d) in output;
    }
  }

  /** The pairs a search can visit: a first step and a square of the map. */
  ghost function Universe(g: Board, starts: set<Coord>): set<(Coord, Coord)> {
    set f, y, x | f in starts && 0 <= y < |g| && 0 <= x < |g[y]| :: (f, Coord(x, y))
  }

  lemma InUniverse(g: Board, starts: set<Coord>, f: Coord, v: Coord)
    requires f in starts && InBounds(g, v)
    ensures (f, v) in Universe(g, starts)
  {
    assert (f, Coord(v.x, v.y)) in Universe(g, starts);
  }

  lemma VisitShrinks<T>(universe: set<T>, visited: set<T>, p: T)
    requires p in universe && p !in visited
    ensures |universe - (visited + {p})| < |universe - visited|
  {
    var rest := universe - (visited + {p});
    assert universe - visited == rest + {p};
  }

  /**
   * `neighbours.each`: appends to the queue an entry for every neighbour
   * not yet visited from the same first step.
   */
  method PushUnvisited(toVisit: seq<Entry>, neighbours: seq<Coord>, first: Coord, distance: nat,
                       visited: set<(Coord, Coord)>) returns (r: seq<Entry>)
    ensures r == toVisit + Pushed(neighbours, first, distance, visited)
  {
    r := toVisit;
    var i := 0;
    while i < |neighbours|
      invariant 0 <= i <= |neighbours|
      invariant r == toVisit + Pushed(neighbours[..i], first, distance, visited)
    {
      assert neighbours[..i + 1][..i] == neighbours[..i];
      if (first, neighbours[i]) !in visited {
        r := r + [Entry(neighbours[i], first, distance)];
      }
      i := i + 1;
    }
    assert neighbours[..i] == neighbours;
  }

  /**
   * One turn of the `while` loop of `next_move_between`: take the head of
   * the queue and skip it when its pair was seen before; `done` is the
   * `break`.
   */
  method VisitHead(g: Board, to: Coord, ghost starts: set<Coord>, toVisit: seq<Entry>, visited: set<(Coord, Coord)>,
                   output: seq<(Coord, nat)>, minDistance: Option<nat>, ghost level: nat)
    returns (toVisit': seq<Entry>, visited': set<(Coord, Coord)>, output': seq<(Coord, nat)>,
             minDistance': Option<nat>, ghost level': nat, done: bool)
    requires Bordered(g) && toVisit != []
    requires SearchInv(g, to, starts, toVisit, visited, output, minDistance, level)
    requires visited <= Universe(g, starts)
    ensures done ==> Characterized(g, to, starts, output', minDistance')
    ensures !done ==> SearchInv(g, to, starts, toVisit', visited', output', minDistance', level')
    ensures !done ==> visited' <= Universe(g, starts)
    ensures !done ==> |Universe(g, starts) - visited'| < |Universe(g, starts) - visited| ||
                      (visited' == visited && |toVisit'| < |toVisit|)
  {
    var e := toVisit[0];
    level' := CatchUp(g, to, starts, toVisit, visited, output, minDistance, level);
    if (e.first, e.visiting) in visited {
      PopVisited(g, to, starts, toVisit, visited, output, minDistance, level');
      toVisit', visited', output', minDistance', done := toVisit[1..], visited, output, minDistance, false;
    } else {
      assert e in toVisit;
      InUniverse(g, starts, e.first, e.visiting);
      VisitShrinks(Universe(g, starts), visited, (e.first, e.visiting));
      toVisit', visited', output', minDistance', done :=
        VisitFresh(g, to, starts, toVisit, visited, output, minDistance, level');
    }
  }

  /**
   * The rest of a turn, for a pair not visited before: mark it visited,
   * then stop (it is farther than the targets found), record a target, or
   * push its unvisited neighbours.
   */
  method VisitFresh(g: Board, to: Coord, ghost starts: set<Coord>, q: seq<Entry>, visited: set<(Coord, Coord)>,
                    output: seq<(Coord, nat)>, minDistance: Option<nat>, ghost level: nat)
    returns (toVisit': seq<Entry>, visited': set<(Coord, Coord)>, output': seq<(Coord, nat)>,
             minDistance': Option<nat>, done: bool)
    requires Bordered(g)
    requires SearchInv(g, to, starts, q, visited, output, minDistance, level)
    requires q != [] && q[0].distance == level && (q[0].first, q[0].visiting) !in visited
    ensures visited' == visited + {(q[0].first, q[0].visiting)}
    ensures done ==> Characterized(g, to, starts, output', minDistance')
    ensures !done ==> SearchInv(g, to, starts, toVisit', visited', output', minDistance', level)
  {
    var e := q[0];
    toVisit', visited', output', minDistance', done := q[1..], visited + {(e.first, e.visiting)}, output, minDistance, false;
    if minDistance.Some? && e.distance > minDistance.value {
      StopEarly(g, to, starts, q, visited, output, minDistance, level);
      done := true;
    } else if e.visiting == to {
      VisitTarget(g, to, starts, q, visited, output, minDistance, level);
      if (e.first, e.distance) !in output {
        output' := output + [(e.first, e.distance)];
        minDistance' := Some(e.distance);
      }
    } else {
      toVisit' := Expand(g, to, starts, q, visited, output, minDistance, level);
    }
  }

  lemma HeadIsInterior(g: Board, to: Coord, starts: set<Coord>, q: seq<Entry>, level: nat)
    requires Bordered(g) && q != [] && QueueSound(g, to, starts, q, level)
    ensures Interior(g, q[0].visiting)
  {
    assert q[0] in q;
    NonWallIsInterior(g, q[0].visiting);
  }

  /** `neighbours.each` for a square other than `to`. */
  method Expand(g: Board, to: Coord, ghost starts: set<Coord>, q: seq<Entry>, visited: set<(Coord, Coord)>,
                output: seq<(Coord, nat)>, minDistance: Option<nat>, ghost level: nat)
    returns (toVisit': seq<Entry>)
    requires Bordered(g)
    requires SearchInv(g, to, starts, q, visited, output, minDistance, level)
    requires q != [] && q[0].distance == level && (q[0].first, q[0].visiting) !in visited
    requires q[0].visiting != to
    ensures SearchInv(g, to, starts, toVisit', visited + {(q[0].first, q[0].visiting)}, output, minDistance, level)
  {
    var e := q[0];
    var visited' := visited + {(e.first, e.visiting)};
    HeadIsInterior(g, to, starts, q, level);
    var neighbours := EmptyAdjacents(g, e.visiting);
    VisitExpand(g, to, starts, q, visited, output, minDistance, level, Pushed(neighbours, e.first, e.distance + 1, visited'));
    toVisit' := PushUnvisited(q[1..], neighbours, e.first, e.distance + 1, visited');
  }

  /**
   * The queue loop of `next_move_between`, from the empty neighbours
   * `firstSteps` of the starting square: it ends with every first step
   * that reaches `to` soonest, and how soon.
   */
  method Search(g: Board, to: Coord, ghost starts: set<Coord>, firstSteps: seq<Coord>)
    returns (output: seq<(Coord, nat)>, minDistance: Option<nat>)
    requires Bordered(g)
    requires starts == set s | s in firstSteps
    requires forall s :: s in firstSteps ==> Open(g, s)
    ensures Characterized(g, to, starts, output, minDistance)
  {
    ghost var universe := Universe(g, starts);
    var toVisit := seq(|firstSteps|, i requires 0 <= i < |firstSteps| => Entry(firstSteps[i], firstSteps[i], 1));
    var visited: set<(Coord, Coord)> := {};
    minDistance := None;
    output := [];
    ghost var level: nat := 1;
    ghost var stopped := false;
    InitialSearch(g, to, firstSteps, starts, toVisit);
    while toVisit != []
      invariant SearchInv(g, to, starts, toVisit, visited, output, minDistance, level)
      invariant visited <= universe
      invariant !stopped
      decreases |universe - visited|, |toVisit|
    {
      var done;
      toVisit, visited, output, minDistance, level, done :=
        VisitHead(g, to, starts, toVisit, visited, output, minDistance, level);
      if done {
        stopped := true;
        break;
      }
    }
    if !stopped {
      Drained(g, to, starts, visited, output, minDistance, level);
    }
  }

  /**
   * `Map#next_move_between(from, to)`: a breadth-first search from every
   * empty neighbour of `from` at once, keyed by that first step, through
   * empty squares only. It answers `nil` exactly when no empty neighbour
   * leads to `to`, and otherwise the best first step and the distance.
   */
  method NextMoveBetween(g: Board, from: Coord, to: Coord) returns (r: Option<(Coord, nat)>)
    requires Bordered(g) && Interior(g, from)
    ensures r.None? <==> NoPath(g, from, to)
    ensures r.Some? ==> IsBestFirstStep(g, from, to, r.value.0, r.value.1)
    ensures r == BestFirstStep(g, from, to)
  {
    var firstSteps := EmptyAdjacents(g, from);
    ghost var starts := set s | s in firstSteps;
    assert forall s :: s in starts <==> s in EmptyAdjacents(g, from);
    var output, minDistance := Search(g, to, starts, firstSteps);
    if output == [] {
      r := None;
    } else {
      r := Some(FirstInReadingOrder(output));
    }
    ConcludeNoPath(g, from, to, starts, output, minDistance);
    if output != [] {
      ConcludeStep(g, from, to, starts, output, minDistance);
      var best := BestFirstStep(g, from, to).value;
      BestFirstStepIsUnique(g, from, to, r.value.0, r.value.1, best.0, best.1);
    }
  }
}
