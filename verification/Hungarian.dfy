/**
 * The rectangular Hungarian algorithm. Rows and columns are numbered from 1; column 0 is the
 * virtual column that holds the row being inserted, and row 0 means "no row".
 *
 * The search's invariants are predicates over the contents of the arrays; the lemmas show that one
 * scan and one shift of the potentials keep them.
 */
module Hungarian {
  import opened Wrappers
  import opened AssignmentSpec

  /** A distance: infinite until the column has been scanned. */
  datatype Distance = Infinite | Finite(value: real)

  predicate Less(x: Distance, y: Distance) {
    x.Finite? && (y.Infinite? || x.value < y.value)
  }

  function Lower(x: Distance, delta: real): Distance {
    if x.Infinite? then x else Finite(x.value - delta)
  }

  /** Cost of a pair of 1-based row and column after both potentials are paid. */
  function Reduced(cost: Matrix, u: seq<real>, v: seq<real>, i: nat, j: nat): real
    requires 1 <= i <= |cost| && i < |u| && 1 <= j <= |cost[i - 1]| && j < |v|
  {
    cost[i - 1][j - 1] - u[i] - v[j]
  }

  ghost predicate Shape(cost: Matrix, cols: nat, u: seq<real>, v: seq<real>, p: seq<nat>) {
    && Rectangular(cost, cols) && |cost| <= cols
    && |u| == |cost| + 1 && |v| == cols + 1 && |p| == cols + 1
    && forall j :: 0 <= j <= cols ==> p[j] <= |cost|
  }

  /** Reduced costs of the first k rows are non-negative. */
  ghost predicate DualFeasible(cost: Matrix, cols: nat, u: seq<real>, v: seq<real>, p: seq<nat>, k: nat)
    requires Shape(cost, cols, u, v, p) && k <= |cost|
  {
    forall i, j :: 1 <= i <= k && 1 <= j <= cols ==> Reduced(cost, u, v, i, j) >= 0.0
  }

  /** Matched pairs are tight. Real columns have potential at most 0, free ones exactly 0. */
  ghost predicate Slack(cost: Matrix, cols: nat, u: seq<real>, v: seq<real>, p: seq<nat>)
    requires Shape(cost, cols, u, v, p)
  {
    && u[0] == 0.0
    && (forall j :: 1 <= j <= cols && p[j] != 0 ==> Reduced(cost, u, v, p[j], j) == 0.0)
    && (forall j :: 1 <= j <= cols ==> v[j] <= 0.0 && (p[j] == 0 ==> v[j] == 0.0))
  }

  /** All row and column potentials, column 0 included, add up to nothing. */
  ghost predicate Balanced(u: seq<real>, v: seq<real>) {
    SumTo(u, |u|) + SumTo(v, |v|) == 0.0
  }

  ghost predicate Hosts(p: seq<nat>, hole: nat, i: nat) {
    exists j :: 0 <= j < |p| && j != hole && p[j] == i
  }

  /** Outside the hole, each of the rows 1..k sits in exactly one column and no other row does. */
  ghost predicate Covers(p: seq<nat>, hole: nat, k: nat) {
    && (forall j :: 0 <= j < |p| && j != hole ==> p[j] <= k)
    && (forall j, l :: 0 <= j < l < |p| && j != hole && l != hole && p[j] != 0 ==> p[j] != p[l])
    && (forall i :: 1 <= i <= k ==> Hosts(p, hole, i))
  }

  // ----- the search tree -----

  /** Columns in the order the search reached them, starting at the virtual one. */
  ghost predicate Order(order: seq<nat>, cols: nat) {
    && |order| > 0 && order[0] == 0
    && (forall k :: 0 <= k < |order| ==> order[k] <= cols)
    && (forall k, l :: 0 <= k < l < |order| ==> order[k] != order[l])
  }

  /** `previous` leads from the k-th column of the order to an earlier one. */
  ghost predicate LinksBack(order: seq<nat>, previous: seq<nat>, k: nat)
    requires k < |order|
  {
    order[k] < |previous| && exists e :: 0 <= e < k && order[e] == previous[order[k]]
  }

  /** Every column but the first is reached over a tight edge from a row of an earlier column. */
  ghost predicate Tree(cost: Matrix, cols: nat, u: seq<real>, v: seq<real>, p: seq<nat>,
                       previous: seq<nat>, order: seq<nat>)
    requires Shape(cost, cols, u, v, p)
  {
    && Order(order, cols) && |previous| == cols + 1
    && forall k :: 1 <= k < |order| ==>
         && LinksBack(order, previous, k)
         && previous[order[k]] <= cols
         && p[previous[order[k]]] != 0
         && Reduced(cost, u, v, p[previous[order[k]]], order[k]) == 0.0
  }

  ghost predicate Marks(used: seq<bool>, order: seq<nat>, cols: nat) {
    && |used| == cols + 1
    && (forall j :: 0 <= j <= cols ==> (used[j] <==> j in order))
  }

  /** The recorded distance of an unused column is the least reduced cost from the used columns' rows. */
  ghost predicate Nearest(cost: Matrix, cols: nat, u: seq<real>, v: seq<real>, p: seq<nat>,
                          previous: seq<nat>, dist: seq<Distance>, used: seq<bool>, j: nat)
    requires Shape(cost, cols, u, v, p) && |previous| == |dist| == |used| == cols + 1 && 1 <= j <= cols
    requires forall k :: 0 <= k <= cols && used[k] ==> p[k] != 0
  {
    && dist[j].Finite?
    && previous[j] <= cols && used[previous[j]]
    && dist[j].value == Reduced(cost, u, v, p[previous[j]], j)
    && forall k :: 0 <= k <= cols && used[k] ==> dist[j].value <= Reduced(cost, u, v, p[k], j)
  }

  ghost predicate Frontier(cost: Matrix, cols: nat, u: seq<real>, v: seq<real>, p: seq<nat>,
                           previous: seq<nat>, dist: seq<Distance>, used: seq<bool>)
  {
    && Shape(cost, cols, u, v, p) && |previous| == |dist| == |used| == cols + 1
    && (forall k :: 0 <= k <= cols && used[k] ==> p[k] != 0)
    && (forall j :: 1 <= j <= cols && !used[j] ==> Nearest(cost, cols, u, v, p, previous, dist, used, j))
  }

  // ----- what the two inner loops compute -----

  /** One pass over the unused columns from the row in `current`. */
  ghost predicate Scanned(cost: Matrix, cols: nat, u: seq<real>, v: seq<real>, p: seq<nat>, current: nat,
                          used: seq<bool>, previous: seq<nat>, dist: seq<Distance>,
                          previous': seq<nat>, dist': seq<Distance>, upTo: nat)
    requires Shape(cost, cols, u, v, p) && current <= cols && p[current] != 0 && upTo <= cols
  {
    && |used| == |previous| == |dist| == |previous'| == |dist'| == cols + 1
    && (forall j :: 0 <= j <= cols && (j == 0 || j > upTo || used[j]) ==>
          previous'[j] == previous[j] && dist'[j] == dist[j])
    && (forall j :: 1 <= j <= upTo && !used[j] ==>
          var r := Finite(Reduced(cost, u, v, p[current], j));
          && dist'[j] == (if Less(r, dist[j]) then r else dist[j])
          && previous'[j] == (if Less(r, dist[j]) then current else previous[j]))
  }

  /** `next` is an unused column at the least distance `delta`. */
  ghost predicate Closest(dist: seq<Distance>, used: seq<bool>, delta: Distance, next: nat, upTo: nat)
    requires |dist| == |used| && upTo < |dist|
  {
    && (delta.Finite? ==> 1 <= next <= upTo && !used[next] && dist[next] == delta)
    && (delta.Infinite? ==> next == 0)
    && (forall j :: 1 <= j <= upTo && !used[j] ==> !Less(dist[j], delta))
  }

  /** The potentials of used columns and their rows move by delta in opposite directions. */
  ghost predicate Shifted(p: seq<nat>, used: seq<bool>, delta: real, u: seq<real>, v: seq<real>, dist: seq<Distance>,
                          u': seq<real>, v': seq<real>, dist': seq<Distance>, upTo: nat)
  {
    && |p| == |used| == |v| == |dist| == |v'| == |dist'| && |u'| == |u| && upTo <= |p|
    && (forall j :: 0 <= j < upTo && used[j] ==> p[j] < |u| && u'[p[j]] == u[p[j]] + delta)
    && (forall i :: 0 <= i < |u| && (forall j :: 0 <= j < upTo && used[j] ==> p[j] != i) ==> u'[i] == u[i])
    && (forall j :: 0 <= j < |v| ==> v'[j] == if j < upTo && used[j] then v[j] - delta else v[j])
    && (forall j :: 0 <= j < |v| ==> dist'[j] == if j < upTo && !used[j] then Lower(dist[j], delta) else dist[j])
    && SumTo(u', |u'|) + SumTo(v', |v'|) == SumTo(u, |u|) + SumTo(v, |v|)
  }

  lemma ScanOne(cost: Matrix, cols: nat, u: seq<real>, v: seq<real>, p: seq<nat>, current: nat, used: seq<bool>,
                previous: seq<nat>, dist: seq<Distance>, previous1: seq<nat>, dist1: seq<Distance>,
                previous': seq<nat>, dist': seq<Distance>, col: nat)
    requires Shape(cost, cols, u, v, p) && current <= cols && p[current] != 0 && 1 <= col <= cols
    requires Scanned(cost, cols, u, v, p, current, used, previous, dist, previous1, dist1, col - 1)
    requires var r := Finite(Reduced(cost, u, v, p[current], col));
             if !used[col] && Less(r, dist1[col])
             then previous' == previous1[col := current] && dist' == dist1[col := r]
             else previous' == previous1 && dist' == dist1
    ensures Scanned(cost, cols, u, v, p, current, used, previous, dist, previous', dist', col)
  {
  }

  method ScanColumn(cost: Matrix, ghost cols: nat, u: array<real>, v: array<real>, row: nat, current: nat,
                    used: array<bool>,
                    previous: array<nat>, dist: array<Distance>, col: nat, delta: Distance, next: nat)
    returns (delta': Distance, next': nat)
    requires Rectangular(cost, cols) && 1 <= row <= |cost| && row < u.Length && v.Length == cols + 1
    requires used.Length == previous.Length == dist.Length == cols + 1 && 1 <= col <= cols
    requires Closest(dist[..], used[..], delta, next, col - 1)
    modifies previous, dist
    ensures Closest(dist[..], used[..], delta', next', col)
    ensures var r := Finite(Reduced(cost, u[..], v[..], row, col));
            if !used[col] && Less(r, old(dist[col])) then
              previous[..] == old(previous[..])[col := current] && dist[..] == old(dist[..])[col := r]
            else previous[..] == old(previous[..]) && dist[..] == old(dist[..])
  {
    delta', next' := delta, next;
    if !used[col] {
      var reduced := Finite(cost[row - 1][col - 1] - u[row] - v[col]);
      if Less(reduced, dist[col]) {
        dist[col] := reduced;
        previous[col] := current;
      }
      if Less(dist[col], delta) {
        delta', next' := dist[col], col;
      }
    }
  }

  method ScanColumns(cost: Matrix, ghost cols: nat, u: array<real>, v: array<real>, p: array<nat>,
                     current: nat, used: array<bool>, previous: array<nat>, dist: array<Distance>)
    returns (delta: Distance, next: nat)
    requires Shape(cost, cols, u[..], v[..], p[..]) && current <= cols && p[current] != 0
    requires used.Length == previous.Length == dist.Length == cols + 1
    requires previous != p
    modifies previous, dist
    ensures p[..] == old(p[..])
    ensures Scanned(cost, cols, u[..], v[..], p[..], current, used[..], old(previous[..]), old(dist[..]),
                    previous[..], dist[..], cols)
    ensures Closest(dist[..], used[..], delta, next, cols)
  {
    var row := p[current];
    delta, next := Infinite, 0;
    var col := 1;
    while col < v.Length
      invariant 1 <= col <= cols + 1
      invariant p[..] == old(p[..])
      invariant Scanned(cost, cols, u[..], v[..], p[..], current, used[..], old(previous[..]), old(dist[..]),
                        previous[..], dist[..], col - 1)
      invariant Closest(dist[..], used[..], delta, next, col - 1)
    {
      hide Scanned, Closest, Less;
      ghost var previous1, dist1 := previous[..], dist[..];
      delta, next := ScanColumn(cost, cols, u, v, row, current, used, previous, dist, col, delta, next);
      ScanOne(cost, cols, u[..], v[..], p[..], current, used[..], old(previous[..]), old(dist[..]),
              previous1, dist1, previous[..], dist[..], col);
      col := col + 1;
    }
  }

  lemma ShiftOneColumn(p: seq<nat>, used: seq<bool>, delta: real, u: seq<real>, v: seq<real>, dist: seq<Distance>,
                       u1: seq<real>, v1: seq<real>, dist1: seq<Distance>, col: nat)
    requires Shiftable(p, used, |u|, |p|) && |v| == |dist| == |p| && col < |p|
    requires Shifted(p, used, delta, u, v, dist, u1, v1, dist1, col)
    ensures |u1| == |u| && |v1| == |v| && |dist1| == |dist| && p[col] < |u|
    ensures if used[col] then
              Shifted(p, used, delta, u, v, dist, u1[p[col] := u1[p[col]] + delta], v1[col := v1[col] - delta],
                      dist1, col + 1)
            else Shifted(p, used, delta, u, v, dist, u1, v1, dist1[col := Lower(dist1[col], delta)], col + 1)
  {
    if used[col] {
      SumUpdate(u1, p[col], u1[p[col]] + delta, |u1|);
      SumUpdate(v1, col, v1[col] - delta, |v1|);
      assert u1[p[col]] == u[p[col]];
    }
  }

  lemma NothingShifted(p: seq<nat>, used: seq<bool>, delta: real, u: seq<real>, v: seq<real>, dist: seq<Distance>)
    requires |p| == |used| == |v| == |dist|
    ensures Shifted(p, used, delta, u, v, dist, u, v, dist, 0)
  {
  }

  ghost predicate Shiftable(p: seq<nat>, used: seq<bool>, rows: nat, cols: nat) {
    && |p| == |used| == cols
    && (forall j :: 0 <= j < |p| ==> p[j] < rows)
    && (forall j, l :: 0 <= j < l < |p| && used[j] && used[l] ==> p[j] != p[l])
  }

  method ShiftColumn(p: array<nat>, used: array<bool>, delta: real, u: array<real>, v: array<real>,
                     dist: array<Distance>, col: nat)
    requires col < p.Length == used.Length == v.Length == dist.Length && p[col] < u.Length && u != v
    modifies u, v, dist
    ensures u[..] == if used[col] then old(u[..])[p[col] := old(u[p[col]]) + delta] else old(u[..])
    ensures v[..] == if used[col] then old(v[..])[col := old(v[col]) - delta] else old(v[..])
    ensures dist[..] == if used[col] then old(dist[..]) else old(dist[..])[col := Lower(old(dist[col]), delta)]
  {
    if used[col] {
      u[p[col]] := u[p[col]] + delta;
      v[col] := v[col] - delta;
    } else {
      dist[col] := Lower(dist[col], delta);
    }
  }

  method ShiftPotentials(p: array<nat>, used: array<bool>, delta: real, u: array<real>, v: array<real>,
                         dist: array<Distance>)
    requires Shiftable(p[..], used[..], u.Length, p.Length)
    requires p.Length == used.Length == v.Length == dist.Length && u != v
    modifies u, v, dist
    ensures Shifted(p[..], used[..], delta, old(u[..]), old(v[..]), old(dist[..]), u[..], v[..], dist[..], p.Length)
  {
    hide *;
    ghost var held, marks, u0, v0, dist0 := p[..], used[..], u[..], v[..], dist[..];
    NothingShifted(held, marks, delta, u0, v0, dist0);
    for col := 0 to p.Length
      invariant p[..] == held && used[..] == marks
      invariant Shifted(held, marks, delta, u0, v0, dist0, u[..], v[..], dist[..], col)
    {
      ShiftOneColumn(held, marks, delta, u0, v0, dist0, u[..], v[..], dist[..], col);
      assert p[col] == held[col] && used[col] == marks[col];
      ShiftColumn(p, used, delta, u, v, dist, col);
    }
  }

  // ----- one round of the search -----

  /** Row i is the one held by some used column. */
  ghost predicate Reached(p: seq<nat>, used: seq<bool>, i: nat)
    requires |used| == |p|
  {
    exists k :: 0 <= k < |p| && used[k] && p[k] == i
  }

  ghost predicate Distinct(p: seq<nat>) {
    forall j, l :: 0 <= j < l < |p| && p[j] != 0 ==> p[j] != p[l]
  }

  /** What a shift does to one reduced cost. */
  lemma ShiftedReduced(cost: Matrix, cols: nat, u: seq<real>, v: seq<real>, p: seq<nat>, used: seq<bool>,
                       dist: seq<Distance>, delta: real, u': seq<real>, v': seq<real>, dist': seq<Distance>,
                       i: nat, j: nat)
    requires Shape(cost, cols, u, v, p) && |used| == |dist| == cols + 1
    requires Shifted(p, used, delta, u, v, dist, u', v', dist', cols + 1)
    requires 1 <= i <= |cost| && 1 <= j <= cols
    ensures Reduced(cost, u', v', i, j) ==
            Reduced(cost, u, v, i, j) - (if Reached(p, used, i) then delta else 0.0) + (if used[j] then delta else 0.0)
  {
  }

  /** After scanning the row of a newly used column, the recorded distances are nearest again. */
  lemma ScanKeepsFrontier(cost: Matrix, cols: nat, u: seq<real>, v: seq<real>, p: seq<nat>, current: nat,
                          used: seq<bool>, previous: seq<nat>, dist: seq<Distance>,
                          previous': seq<nat>, dist': seq<Distance>)
    requires Shape(cost, cols, u, v, p) && current <= cols && p[current] != 0
    requires |used| == |previous| == |dist| == cols + 1
    requires
      || Frontier(cost, cols, u, v, p, previous, dist, used)
      || ((forall k :: 0 <= k <= cols ==> !used[k]) && (forall j :: 1 <= j <= cols ==> dist[j].Infinite?))
    requires Scanned(cost, cols, u, v, p, current, used[current := true], previous, dist, previous', dist', cols)
    ensures Frontier(cost, cols, u, v, p, previous', dist', used[current := true])
  {
  }

  /** A scan does not touch the links of columns already in the tree. */
  lemma ScanKeepsTree(cost: Matrix, cols: nat, u: seq<real>, v: seq<real>, p: seq<nat>, current: nat,
                      used: seq<bool>, previous: seq<nat>, dist: seq<Distance>,
                      previous': seq<nat>, dist': seq<Distance>, order: seq<nat>)
    requires Shape(cost, cols, u, v, p) && current <= cols && p[current] != 0
    requires Tree(cost, cols, u, v, p, previous, order) && Marks(used, order, cols)
    requires Scanned(cost, cols, u, v, p, current, used, previous, dist, previous', dist', cols)
    ensures Tree(cost, cols, u, v, p, previous', order)
  {
  }

  /** Distinct numbers from 1..limit: there are at most `limit` of them. */
  lemma {:induction false} Pigeonhole(s: seq<nat>, limit: nat)
    requires forall k :: 0 <= k < |s| ==> 1 <= s[k] <= limit
    requires forall k, l :: 0 <= k < l < |s| ==> s[k] != s[l]
    ensures |s| <= limit
    decreases limit
  {
    if s == [] {
    } else if limit in s {
      var k :| 0 <= k < |s| && s[k] == limit;
      Pigeonhole(s[..k] + s[k + 1..], limit - 1);
    } else {
      assert 1 <= s[0] <= limit;
      Pigeonhole(s, limit - 1);
    }
  }

  /** A sequence that contains all of 0..limit has more than `limit` entries. */
  lemma {:induction false} Covering(s: seq<nat>, limit: nat)
    requires forall j :: 0 <= j <= limit ==> j in s
    ensures |s| > limit
    decreases limit
  {
    assert limit in s;
    var k :| 0 <= k < |s| && s[k] == limit;
    if limit == 0 {
    } else {
      var t := s[..k] + s[k + 1..];
      forall j | 0 <= j <= limit - 1 ensures j in t {
        assert j in s;
        var l :| 0 <= l < |s| && s[l] == j;
        assert t[if l < k then l else l - 1] == j;
      }
      Covering(t, limit - 1);
    }
  }

  /** While every used column holds a row, some column is unused: the search cannot run dry. */
  lemma UnusedColumn(p: seq<nat>, used: seq<bool>, order: seq<nat>, cols: nat, rows: nat)
    requires rows <= cols && |p| == cols + 1
    requires Order(order, cols) && Marks(used, order, cols) && Distinct(p)
    requires forall j :: 0 <= j <= cols && used[j] ==> 1 <= p[j] <= rows
    ensures |order| <= rows
    ensures exists j :: 1 <= j <= cols && !used[j]
  {
    var held := seq(|order|, k requires 0 <= k < |order| => p[order[k]]);
    forall k | 0 <= k < |order| ensures used[order[k]] {
      assert order[k] in order;
    }
    Pigeonhole(held, rows);
    if forall j :: 1 <= j <= cols ==> used[j] {
      forall j | 0 <= j <= cols ensures j in order {
        assert used[0] by { assert order[0] == 0; }
      }
      Covering(order, cols);
    }
  }

  /** The hypotheses shared by the lemmas about one shift. */
  ghost predicate BeforeShift(cost: Matrix, cols: nat, u: seq<real>, v: seq<real>, p: seq<nat>, previous: seq<nat>,
                              dist: seq<Distance>, used: seq<bool>, order: seq<nat>, row: nat, delta: real, next: nat)
  {
    && Frontier(cost, cols, u, v, p, previous, dist, used)
    && Distinct(p) && p[0] == row && 1 <= row <= |cost|
    && Order(order, cols) && Marks(used, order, cols)
    && Slack(cost, cols, u, v, p)
    && DualFeasible(cost, cols, u, v, p, if |order| == 1 then row - 1 else row)
    && Closest(dist, used, Finite(delta), next, cols)
  }

  /** The first shift may have either sign; later ones never go down. */
  lemma DeltaSign(cost: Matrix, cols: nat, u: seq<real>, v: seq<real>, p: seq<nat>, previous: seq<nat>,
                  dist: seq<Distance>, used: seq<bool>, order: seq<nat>, row: nat, delta: real, next: nat)
    requires BeforeShift(cost, cols, u, v, p, previous, dist, used, order, row, delta, next)
    requires forall j :: 0 <= j <= cols ==> p[j] <= row
    ensures forall j :: 1 <= j <= cols && used[j] ==> delta >= 0.0
  {
  }

  lemma ShiftKeepsFeasible(cost: Matrix, cols: nat, u: seq<real>, v: seq<real>, p: seq<nat>, previous: seq<nat>,
                           dist: seq<Distance>, used: seq<bool>, order: seq<nat>, row: nat, delta: real, next: nat,
                           u': seq<real>, v': seq<real>, dist': seq<Distance>)
    requires BeforeShift(cost, cols, u, v, p, previous, dist, used, order, row, delta, next)
    requires forall j :: 0 <= j <= cols ==> p[j] <= row
    requires Shifted(p, used, delta, u, v, dist, u', v', dist', cols + 1)
    ensures DualFeasible(cost, cols, u', v', p, row)
  {
    DeltaSign(cost, cols, u, v, p, previous, dist, used, order, row, delta, next);
    forall i, j | 1 <= i <= row && 1 <= j <= cols ensures Reduced(cost, u', v', i, j) >= 0.0 {
      ShiftedReduced(cost, cols, u, v, p, used, dist, delta, u', v', dist', i, j);
      assert used[0] by { assert order[0] in order; }
      if !used[j] {
        assert Nearest(cost, cols, u, v, p, previous, dist, used, j);
        assert !Less(dist[j], Finite(delta));
      } else {
        assert |order| > 1 by { assert order[0] == 0 && j in order; }
      }
    }
  }

  /** Only its own column reaches a matched row. */
  lemma ReachedByOwner(p: seq<nat>, used: seq<bool>, j: nat)
    requires |used| == |p| && j < |p| && p[j] != 0 && Distinct(p)
    ensures Reached(p, used, p[j]) <==> used[j]
  {
  }

  lemma ShiftKeepsSlack(cost: Matrix, cols: nat, u: seq<real>, v: seq<real>, p: seq<nat>, previous: seq<nat>,
                        dist: seq<Distance>, used: seq<bool>, order: seq<nat>, row: nat, delta: real, next: nat,
                        u': seq<real>, v': seq<real>, dist': seq<Distance>)
    requires BeforeShift(cost, cols, u, v, p, previous, dist, used, order, row, delta, next)
    requires forall j :: 0 <= j <= cols ==> p[j] <= row
    requires Shifted(p, used, delta, u, v, dist, u', v', dist', cols + 1)
    ensures Slack(cost, cols, u', v', p)
  {
    DeltaSign(cost, cols, u, v, p, previous, dist, used, order, row, delta, next);
    assert u'[0] == u[0];
    hide Frontier, Order, Marks, DualFeasible, Closest, Reached, Reduced;
    forall j | 1 <= j <= cols && p[j] != 0 ensures Reduced(cost, u', v', p[j], j) == 0.0 {
      ShiftedReduced(cost, cols, u, v, p, used, dist, delta, u', v', dist', p[j], j);
      ReachedByOwner(p, used, j);
    }
  }

  /** An edge from a used column's row to a used column, or to the nearest one, is tight after the shift. */
  lemma EdgeIsTight(cost: Matrix, cols: nat, u: seq<real>, v: seq<real>, p: seq<nat>, dist: seq<Distance>,
                    used: seq<bool>,
                    delta: real, u': seq<real>, v': seq<real>, dist': seq<Distance>, from: nat, j: nat)
    requires Shape(cost, cols, u, v, p) && |used| == |dist| == cols + 1
    requires Shifted(p, used, delta, u, v, dist, u', v', dist', cols + 1)
    requires from <= cols && used[from] && p[from] != 0 && 1 <= j <= cols
    requires Reduced(cost, u, v, p[from], j) == if used[j] then 0.0 else delta
    ensures Reduced(cost, u', v', p[from], j) == 0.0
  {
  }

  lemma ShiftKeepsTree(cost: Matrix, cols: nat, u: seq<real>, v: seq<real>, p: seq<nat>, previous: seq<nat>,
                       dist: seq<Distance>, used: seq<bool>, order: seq<nat>, row: nat, delta: real, next: nat,
                       u': seq<real>, v': seq<real>, dist': seq<Distance>)
    requires BeforeShift(cost, cols, u, v, p, previous, dist, used, order, row, delta, next)
    requires Tree(cost, cols, u, v, p, previous, order)
    requires Shifted(p, used, delta, u, v, dist, u', v', dist', cols + 1)
    ensures Tree(cost, cols, u', v', p, previous, order + [next])
  {
    var order' := order + [next];
    OrderExtends(order, used, next, cols);
    assert Nearest(cost, cols, u, v, p, previous, dist, used, next);
    hide Slack, DualFeasible, Shifted, Nearest, Distinct, Closest, Reduced;
    forall k | 1 <= k < |order'|
      ensures LinksBack(order', previous, k) && previous[order'[k]] <= cols && p[previous[order'[k]]] != 0
      ensures Reduced(cost, u', v', p[previous[order'[k]]], order'[k]) == 0.0
    {
      var j := order'[k];
      if k < |order| {
        assert LinksBack(order, previous, k);
        var e :| 0 <= e < k && order[e] == previous[order[k]];
        assert order'[e] == previous[order'[k]];
        assert order[e] in order && order[k] in order;
      } else {
        assert previous[j] in order;
        var e :| 0 <= e < |order| && order[e] == previous[j];
        assert order'[e] == previous[order'[k]];
      }
      EdgeIsTight(cost, cols, u, v, p, dist, used, delta, u', v', dist', previous[j], j);
    }
  }

  lemma OrderExtends(order: seq<nat>, used: seq<bool>, next: nat, cols: nat)
    requires Order(order, cols) && Marks(used, order, cols) && 1 <= next <= cols && !used[next]
    ensures Order(order + [next], cols)
  {
  }

  lemma ShiftKeepsFrontier(cost: Matrix, cols: nat, u: seq<real>, v: seq<real>, p: seq<nat>, previous: seq<nat>,
                           dist: seq<Distance>, used: seq<bool>, delta: real,
                           u': seq<real>, v': seq<real>, dist': seq<Distance>)
    requires Frontier(cost, cols, u, v, p, previous, dist, used)
    requires Shifted(p, used, delta, u, v, dist, u', v', dist', cols + 1)
    ensures Frontier(cost, cols, u', v', p, previous, dist', used)
  {
  }

  // ----- the search and the augmentation -----

  /** Everything one row's search leaves behind for the augmentation. */
  ghost predicate SearchDone(cost: Matrix, cols: nat, u: seq<real>, v: seq<real>, p: seq<nat>, previous: seq<nat>,
                             order: seq<nat>, row: nat)
  {
    && Shape(cost, cols, u, v, p) && row <= |cost|
    && DualFeasible(cost, cols, u, v, p, row) && Slack(cost, cols, u, v, p) && Balanced(u, v)
    && Tree(cost, cols, u, v, p, previous, order)
    && |order| > 1 && p[order[|order| - 1]] == 0
  }

  /**
   * The invariant of the search, where `order` lists the used columns and `current` is about to
   * be used. Before the first round nothing is scanned and the new row may still be infeasible.
   */
  ghost predicate Searching(cost: Matrix, cols: nat, row: nat, u: seq<real>, v: seq<real>, p: seq<nat>,
                            previous: seq<nat>, dist: seq<Distance>, used: seq<bool>, order: seq<nat>, current: nat)
  {
    && Shape(cost, cols, u, v, p) && |previous| == |dist| == cols + 1 && 1 <= row <= |cost|
    && current <= cols && current !in order
    && Marks(used, order, cols)
    && Tree(cost, cols, u, v, p, previous, order + [current])
    && DualFeasible(cost, cols, u, v, p, if order == [] then row - 1 else row)
    && Slack(cost, cols, u, v, p) && Balanced(u, v)
    && (if order == [] then forall j :: 1 <= j <= cols ==> dist[j].Infinite?
        else Frontier(cost, cols, u, v, p, previous, dist, used))
  }

  ghost predicate Held(p: seq<nat>, row: nat) {
    && |p| > 0 && p[0] == row && Distinct(p)
    && forall j :: 0 <= j < |p| ==> p[j] <= row
  }

  /** One round: use a column, scan its row, shift the potentials to make the nearest column tight. */
  method Advance(cost: Matrix, ghost cols: nat, ghost row: nat, u: array<real>, v: array<real>, p: array<nat>,
                 previous: array<nat>, dist: array<Distance>, used: array<bool>, ghost order: seq<nat>, current: nat)
    returns (next: nat)
    requires Searching(cost, cols, row, u[..], v[..], p[..], previous[..], dist[..], used[..], order, current)
    requires Held(p[..], row) && current < p.Length && p[current] != 0
    requires u != v && previous != p
    modifies u, v, previous, dist, used
    ensures p[..] == old(p[..])
    ensures Searching(cost, cols, row, u[..], v[..], p[..], previous[..], dist[..], used[..], order + [current], next)
    ensures |order| < row && next < p.Length
  {
    hide *;
    ghost var held, u0, v0 := p[..], u[..], v[..];
    ghost var used0, previous0, dist0 := used[..], previous[..], dist[..];
    SearchingShape(cost, cols, row, u0, v0, held, previous0, dist0, used0, order, current);
    used[current] := true;
    ghost var used1 := used[..];
    assert used1 == used0[current := true];

    var delta, next' := ScanColumns(cost, cols, u, v, p, current, used, previous, dist);
    next := next';
    ghost var previous1, dist1 := previous[..], dist[..];
    AfterScan(cost, cols, row, u0, v0, held, current, used0, previous0, dist0, previous1, dist1, order, delta, next);

    ShiftPotentials(p, used, delta.value, u, v, dist);
    assert previous[..] == previous1 && used[..] == used1;
    AfterShift(cost, cols, u0, v0, held, previous1, dist1, used1, order + [current], row, delta.value, next, u[..],
               v[..], dist[..]);
  }

  lemma SearchingShape(cost: Matrix, cols: nat, row: nat, u: seq<real>, v: seq<real>, p: seq<nat>,
                       previous: seq<nat>, dist: seq<Distance>, used: seq<bool>, order: seq<nat>, current: nat)
    requires Searching(cost, cols, row, u, v, p, previous, dist, used, order, current)
    ensures Shape(cost, cols, u, v, p) && current <= cols
    ensures |v| == |p| == |previous| == |dist| == |used| == cols + 1 && |u| == |cost| + 1
  {
  }

  lemma AfterScan(cost: Matrix, cols: nat, row: nat, u: seq<real>, v: seq<real>, p: seq<nat>, current: nat,
                  used: seq<bool>, previous: seq<nat>, dist: seq<Distance>, previous': seq<nat>, dist': seq<Distance>,
                  order: seq<nat>, delta: Distance, next: nat)
    requires Searching(cost, cols, row, u, v, p, previous, dist, used, order, current)
    requires Held(p, row) && current < |p| && p[current] != 0
    requires Scanned(cost, cols, u, v, p, current, used[current := true], previous, dist, previous', dist', cols)
    requires |dist'| == cols + 1 && Closest(dist', used[current := true], delta, next, cols)
    ensures |order| < row && delta.Finite?
    ensures Shiftable(p, used[current := true], |u|, |p|)
    ensures RoundReady(cost, cols, u, v, p, previous', dist', used[current := true], order + [current], row,
                       delta.value, next)
  {
    var used1, order1 := used[current := true], order + [current];
    MarksExtend(used, order, current, cols);
    ScanKeepsFrontier(cost, cols, u, v, p, current, used, previous, dist, previous', dist');
    ScanKeepsTree(cost, cols, u, v, p, current, used1, previous, dist, previous', dist', order1);
    UnusedColumn(p, used1, order1, cols, row);
    var j :| 1 <= j <= cols && !used1[j];
    assert Nearest(cost, cols, u, v, p, previous', dist', used1, j);
    assert !Less(dist'[j], delta);
    if |order1| == 1 {
      assert order == [];
    }
  }

  /** All that the shift of this round may rely on. */
  ghost predicate RoundReady(cost: Matrix, cols: nat, u: seq<real>, v: seq<real>, p: seq<nat>, previous: seq<nat>,
                             dist: seq<Distance>, used: seq<bool>, order: seq<nat>, row: nat, delta: real, next: nat)
  {
    && BeforeShift(cost, cols, u, v, p, previous, dist, used, order, row, delta, next)
    && Held(p, row) && Tree(cost, cols, u, v, p, previous, order) && Balanced(u, v)
    && |u| == |cost| + 1 && |v| == |p| == |dist| == |used| == cols + 1
    && next !in order
  }

  /** Rounds until the nearest column is free. */
  method Search(cost: Matrix, ghost cols: nat, ghost row: nat, u: array<real>, v: array<real>, p: array<nat>,
                previous: array<nat>, dist: array<Distance>, used: array<bool>)
    returns (end: nat, ghost order: seq<nat>)
    requires Searching(cost, cols, row, u[..], v[..], p[..], previous[..], dist[..], used[..], [], 0)
    requires Held(p[..], row) && p.Length > 0 && p[0] != 0
    requires u != v && previous != p
    modifies u, v, previous, dist, used
    ensures p[..] == old(p[..])
    ensures SearchDone(cost, cols, u[..], v[..], p[..], previous[..], order, row)
    ensures end == order[|order| - 1]
  {
    hide *;
    var current := 0;
    ghost var reached: seq<nat> := [];
    ghost var held := p[..];
    while true
      invariant p[..] == held
      invariant Searching(cost, cols, row, u[..], v[..], held, previous[..], dist[..], used[..], reached, current)
      invariant current < p.Length && held[current] != 0 && |reached| <= row
      decreases row - |reached|
    {
      var next := Advance(cost, cols, row, u, v, p, previous, dist, used, reached, current);
      reached := reached + [current];
      current := next;
      if p[current] == 0 {
        break;
      }
    }
    end, order := current, reached + [current];
    SearchEnds(cost, cols, row, u[..], v[..], held, previous[..], dist[..], used[..], reached, current);
  }

  lemma SearchEnds(cost: Matrix, cols: nat, row: nat, u: seq<real>, v: seq<real>, p: seq<nat>, previous: seq<nat>,
                   dist: seq<Distance>, used: seq<bool>, order: seq<nat>, current: nat)
    requires Searching(cost, cols, row, u, v, p, previous, dist, used, order, current)
    requires order != [] && p[current] == 0
    ensures SearchDone(cost, cols, u, v, p, previous, order + [current], row)
  {
  }

  lemma SearchStarts(cost: Matrix, cols: nat, row: nat, u: seq<real>, v: seq<real>, p: seq<nat>,
                     previous: seq<nat>, dist: seq<Distance>, used: seq<bool>)
    requires Shape(cost, cols, u, v, p) && |previous| == |dist| == |used| == cols + 1
    requires 1 <= row <= |cost| && p[0] == row && Covers(p, cols + 1, row)
    requires DualFeasible(cost, cols, u, v, p, row - 1) && Slack(cost, cols, u, v, p) && Balanced(u, v)
    requires forall j :: 0 <= j <= cols ==> dist[j].Infinite? && !used[j]
    ensures Searching(cost, cols, row, u, v, p, previous, dist, used, [], 0)
    ensures Held(p, row)
  {
  }

  lemma MarksExtend(used: seq<bool>, order: seq<nat>, current: nat, cols: nat)
    requires Marks(used, order, cols) && current <= cols
    ensures Marks(used[current := true], order + [current], cols)
  {
  }

  lemma AfterShift(cost: Matrix, cols: nat, u: seq<real>, v: seq<real>, p: seq<nat>, previous: seq<nat>,
                   dist: seq<Distance>, used: seq<bool>, order: seq<nat>, row: nat, delta: real, next: nat,
                   u': seq<real>, v': seq<real>, dist': seq<Distance>)
    requires RoundReady(cost, cols, u, v, p, previous, dist, used, order, row, delta, next)
    requires Shifted(p, used, delta, u, v, dist, u', v', dist', |p|)
    ensures next < |p| && Searching(cost, cols, row, u', v', p, previous, dist', used, order, next)
  {
    ShiftKeepsFeasible(cost, cols, u, v, p, previous, dist, used, order, row, delta, next, u', v', dist');
    ShiftKeepsSlack(cost, cols, u, v, p, previous, dist, used, order, row, delta, next, u', v', dist');
    ShiftKeepsTree(cost, cols, u, v, p, previous, dist, used, order, row, delta, next, u', v', dist');
    ShiftKeepsFrontier(cost, cols, u, v, p, previous, dist, used, delta, u', v', dist');
    hide DualFeasible, Slack, Tree, Frontier;
  }

  /** Pairs outside the hole are tight. */
  ghost predicate TightExcept(cost: Matrix, cols: nat, u: seq<real>, v: seq<real>, p: seq<nat>, hole: nat)
    requires Shape(cost, cols, u, v, p)
  {
    forall j :: 1 <= j <= cols && j != hole && p[j] != 0 ==> Reduced(cost, u, v, p[j], j) == 0.0
  }

  /** Filling the hole from another column moves the hole there. */
  lemma MoveHole(p: seq<nat>, hole: nat, from: nat, k: nat)
    requires hole < |p| && from < |p| && hole != from && Covers(p, hole, k)
    ensures Covers(p[hole := p[from]], from, k)
  {
    var p' := p[hole := p[from]];
    forall i | 1 <= i <= k ensures Hosts(p', from, i) {
      assert Hosts(p, hole, i);
      var j :| 0 <= j < |p| && j != hole && p[j] == i;
      assert p'[if j == from then hole else j] == i;
    }
  }

  method Augment(ghost cost: Matrix, ghost cols: nat, ghost row: nat, ghost u: seq<real>, ghost v: seq<real>,
                 p: array<nat>, previous: array<nat>, end: nat, ghost order: seq<nat>)
    requires SearchDone(cost, cols, u, v, p[..], previous[..], order, row) && end == order[|order| - 1]
    requires previous != p && row >= 1 && Covers(p[..], cols + 1, row) && p.Length == cols + 1
    modifies p
    ensures p[0] == old(p[0])
    ensures Shape(cost, cols, u, v, p[..]) && Slack(cost, cols, u, v, p[..]) && Covers(p[..], 0, row)
    ensures forall j :: 1 <= j <= cols && old(p[j]) != 0 ==> p[j] != 0
  {
    hide *;
    var current: nat := end;
    ghost var before, links := p[..], previous[..];
    ShiftingStarts(cost, cols, u, v, row, before, links, order, end);
    ghost var k: nat := |order| - 1;
    while current != 0
      invariant previous[..] == links && p.Length == previous.Length && current < p.Length
      invariant Shifting(cost, cols, u, v, row, before, p[..], order, k, current)
      decreases k
    {
      ghost var p0 := p[..];
      var next := previous[current];
      assert next == links[current];
      k := ShiftOne(cost, cols, u, v, row, before, p0, links, order, k, current);
      p[current] := p[next];
      assert p[..] == p0[current := p0[links[current]]];
      current := next;
    }
    ShiftingEnds(cost, cols, u, v, row, before, p[..], order, k);
  }

  lemma ShiftingStarts(cost: Matrix, cols: nat, u: seq<real>, v: seq<real>, row: nat, p: seq<nat>, links: seq<nat>,
                       order: seq<nat>, end: nat)
    requires SearchDone(cost, cols, u, v, p, links, order, row) && end == order[|order| - 1] && Covers(p, cols + 1, row)
    ensures Shape(cost, cols, u, v, p) && Slack(cost, cols, u, v, p) && Tree(cost, cols, u, v, p, links, order)
    ensures |order| > 1 && |links| == |p| == cols + 1 && end < |p|
    ensures Shifting(cost, cols, u, v, row, p, p, order, |order| - 1, end)
  {
    FreeColumnIsHole(p, end, row);
  }

  lemma ShiftingEnds(cost: Matrix, cols: nat, u: seq<real>, v: seq<real>, row: nat, before: seq<nat>, p: seq<nat>,
                     order: seq<nat>, k: nat)
    requires Shape(cost, cols, u, v, before) && Slack(cost, cols, u, v, before)
    requires Shifting(cost, cols, u, v, row, before, p, order, k, 0)
    ensures Shape(cost, cols, u, v, p) && Slack(cost, cols, u, v, p) && Covers(p, 0, row) && p[0] == before[0]
    ensures forall j :: 1 <= j <= cols && before[j] != 0 ==> p[j] != 0
  {
  }

  /** The walk stands at the k-th column of the order; columns before it still hold what they did. */
  ghost predicate Shifting(cost: Matrix, cols: nat, u: seq<real>, v: seq<real>, row: nat, before: seq<nat>, p: seq<nat>,
                           order: seq<nat>, k: nat, current: nat)
  {
    && Shape(cost, cols, u, v, p) && |before| == cols + 1
    && Order(order, cols) && k < |order| && current == order[k]
    && p[0] == before[0]
    && (forall e :: 0 <= e < k ==> p[order[e]] == before[order[e]])
    && Covers(p, current, row)
    && TightExcept(cost, cols, u, v, p, current)
    && (forall j :: 1 <= j <= cols && before[j] != 0 ==> p[j] != 0)
  }

  lemma ShiftOne(cost: Matrix, cols: nat, u: seq<real>, v: seq<real>, row: nat, before: seq<nat>, p: seq<nat>,
                 links: seq<nat>, order: seq<nat>, k: nat, current: nat)
    returns (k': nat)
    requires Shifting(cost, cols, u, v, row, before, p, order, k, current) && current != 0
    requires Shape(cost, cols, u, v, before) && Tree(cost, cols, u, v, before, links, order)
    ensures k' < k && links[current] <= cols && |p| == |links| == cols + 1
    ensures Shifting(cost, cols, u, v, row, before, p[current := p[links[current]]], order, k', links[current])
  {
    assert k > 0;
    assert LinksBack(order, links, k);
    k' :| 0 <= k' < k && order[k'] == links[order[k]];
    var next := links[current];
    assert p[next] == before[next];
    MoveHole(p, current, next, row);
  }

  lemma FreeColumnIsHole(p: seq<nat>, free: nat, row: nat)
    requires free < |p| && p[free] == 0 && Covers(p, |p|, row)
    ensures Covers(p, free, row)
  {
    forall i | 1 <= i <= row ensures Hosts(p, free, i) {
      assert Hosts(p, |p|, i);
    }
  }

  // ----- the whole algorithm -----

  /** The invariant between rows: the first k rows are matched and certified. */
  ghost predicate Inserted(cost: Matrix, cols: nat, k: nat, u: seq<real>, v: seq<real>, p: seq<nat>) {
    && Shape(cost, cols, u, v, p) && k <= |cost|
    && DualFeasible(cost, cols, u, v, p, k) && Slack(cost, cols, u, v, p) && Balanced(u, v)
    && Covers(p, 0, k)
  }

  method InsertRow(cost: Matrix, ghost cols: nat, row: nat, u: array<real>, v: array<real>, p: array<nat>,
                   previous: array<nat>)
    requires 1 <= row <= |cost| && previous.Length == cols + 1 && v.Length > 0
    requires Inserted(cost, cols, row - 1, u[..], v[..], p[..])
    requires u != v && previous != p
    modifies u, v, p, previous
    ensures Inserted(cost, cols, row, u[..], v[..], p[..])
  {
    ghost var p0 := p[..];
    p[0] := row;
    assert p[..] == p0[0 := row];
    var dist := new Distance[v.Length](_ => Infinite);
    var used := new bool[v.Length](_ => false);
    RowEnters(cost, cols, row, u[..], v[..], p0);
    SearchStarts(cost, cols, row, u[..], v[..], p[..], previous[..], dist[..], used[..]);
    var end, order := Search(cost, cols, row, u, v, p, previous, dist, used);
    hide *;
    Augment(cost, cols, row, u[..], v[..], p, previous, end, order);
    Reassemble(cost, cols, row, u[..], v[..], p0[0 := row], p[..], previous[..], order);
  }

  lemma Reassemble(cost: Matrix, cols: nat, row: nat, u: seq<real>, v: seq<real>, p: seq<nat>, p': seq<nat>,
                   previous: seq<nat>, order: seq<nat>)
    requires SearchDone(cost, cols, u, v, p, previous, order, row)
    requires Shape(cost, cols, u, v, p') && Slack(cost, cols, u, v, p') && Covers(p', 0, row)
    ensures Inserted(cost, cols, row, u, v, p')
  {
  }

  /** Putting the next row in the virtual column makes it covered there. */
  lemma RowEnters(cost: Matrix, cols: nat, row: nat, u: seq<real>, v: seq<real>, p: seq<nat>)
    requires 1 <= row <= |cost| && Inserted(cost, cols, row - 1, u, v, p)
    ensures Shape(cost, cols, u, v, p[0 := row]) && Covers(p[0 := row], cols + 1, row)
    ensures DualFeasible(cost, cols, u, v, p[0 := row], row - 1) && Slack(cost, cols, u, v, p[0 := row])
  {
    var p', none := p[0 := row], cols + 1;
    forall i | 1 <= i <= row ensures Hosts(p', none, i) {
      if i == row {
        assert p'[0] == i;
      } else {
        assert Hosts(p, 0, i);
        var j :| 0 <= j < |p| && j != 0 && p[j] == i;
        assert p'[j] == i;
      }
    }
    forall j | 1 <= j <= cols && p'[j] != 0 ensures Reduced(cost, u, v, p'[j], j) == 0.0 {
      assert p'[j] == p[j];
    }
    assert forall i, j :: 1 <= i <= row - 1 && 1 <= j <= cols ==> Reduced(cost, u, v, i, j) >= 0.0;
  }

  lemma NothingInserted(cost: Matrix, cols: nat, u: seq<real>, v: seq<real>, p: seq<nat>)
    requires Rectangular(cost, cols) && |cost| <= cols
    requires |u| == |cost| + 1 && |v| == |p| == cols + 1
    requires (forall i :: 0 <= i < |u| ==> u[i] == 0.0) && (forall j :: 0 <= j <= cols ==> v[j] == 0.0 && p[j] == 0)
    ensures Inserted(cost, cols, 0, u, v, p)
  {
    SumZero(u, |u|);
    SumZero(v, |v|);
  }

  /** Row i of the matching has column j exactly when column j + 1 holds row i + 1. */
  ghost predicate Reads(p: seq<nat>, a: Matching, upTo: nat)
    requires upTo <= |p|
  {
    && (forall i, j :: 0 <= i < |a| && 1 <= j < upTo ==> (a[i] == Some((j - 1) as nat) <==> p[j] == i + 1))
    && (forall i :: 0 <= i < |a| && a[i].Some? ==> a[i].value + 1 < upTo)
  }

  method ReadMatching(p: array<nat>, rows: nat) returns (a: Matching)
    requires p.Length > 0 && forall j :: 0 <= j < p.Length ==> p[j] <= rows
    requires Covers(p[..], 0, rows)
    ensures |a| == rows && Reads(p[..], a, p.Length)
  {
    var assignments := new Option<nat>[rows](_ => None);
    var col := 1;
    while col < p.Length
      invariant 1 <= col <= p.Length
      invariant Reads(p[..], assignments[..], col)
    {
      ghost var a0 := assignments[..];
      ReadOne(p[..], a0, col, rows);
      if p[col] != 0 {
        assignments[p[col] - 1] := Some(col - 1);
        assert assignments[..] == a0[p[col] - 1 := Some(col - 1)];
      }
      col := col + 1;
    }
    a := assignments[..];
  }

  lemma ReadOne(p: seq<nat>, a: Matching, col: nat, rows: nat)
    requires 1 <= col < |p| && Reads(p, a, col) && Covers(p, 0, rows) && |a| == rows
    ensures Reads(p, if p[col] != 0 then a[p[col] - 1 := Some(col - 1)] else a, col + 1)
  {
  }

  lemma ReadPairs(cost: Matrix, cols: nat, u: seq<real>, v: seq<real>, p: seq<nat>, a: Matching)
    requires Inserted(cost, cols, |cost|, u, v, p)
    requires |a| == |cost| && Reads(p, a, |p|)
    ensures Injective(a, cols)
    ensures forall i :: 0 <= i < |a| ==> a[i].Some?
    ensures forall j :: 0 <= j < cols && p[j + 1] != 0 ==> Hit(a, j)
  {
    forall i | 0 <= i < |a| ensures a[i].Some? {
      var row := i + 1;
      assert Hosts(p, 0, row);
      var j :| 0 <= j < |p| && j != 0 && p[j] == row;
      assert a[i] == Some((j - 1) as nat);
    }
    forall j | 0 <= j < cols && p[j + 1] != 0 ensures Hit(a, j) {
      assert a[p[j + 1] - 1] == Some(j);
    }
    forall i, k | 0 <= i < k < |a| ensures a[i] != a[k] {
      assert p[a[i].value + 1] == i + 1;
    }
  }

  /** The final arrays are a certificate for the matching they hold. */
  lemma Certified(cost: Matrix, cols: nat, u: seq<real>, v: seq<real>, p: seq<nat>, a: Matching)
    requires Inserted(cost, cols, |cost|, u, v, p)
    requires |a| == |cost| && Reads(p, a, |p|)
    ensures RowCertificate(cost, cols, a, u[1..], v[1..])
  {
    ReadPairs(cost, cols, u, v, p, a);
    var u', v' := u[1..], v[1..];
    forall i, j | 0 <= i < |cost| && 0 <= j < cols ensures u'[i] + v'[j] <= cost[i][j] {
      assert Reduced(cost, u, v, i + 1, j + 1) >= 0.0;
    }
    forall i | 0 <= i < |cost| && a[i].Some? ensures u'[i] + v'[a[i].value] == cost[i][a[i].value] {
      assert Reduced(cost, u, v, p[a[i].value + 1], a[i].value + 1) == 0.0;
    }
    forall j | 0 <= j < cols ensures v'[j] <= 0.0 && (v'[j] == 0.0 || Hit(a, j)) {
      assert v'[j] == v[j + 1];
    }
  }

  /** The optimal cost can be read off the virtual column. */
  lemma CostIsVirtualPotential(cost: Matrix, cols: nat, u: seq<real>, v: seq<real>, a: Matching)
    requires |u| == |cost| + 1 && |v| == cols + 1 && u[0] == 0.0 && Balanced(u, v)
    requires Rectangular(cost, cols) && RowCertificate(cost, cols, a, u[1..], v[1..])
    ensures CostTo(cost, a, |a|) == -v[0]
  {
    RowCertificateCost(cost, cols, a, u[1..], v[1..]);
    SumTail(u, |u|);
    SumTail(v, |v|);
  }

  method RectangularHungarian(cost: Matrix)
    returns (a: Matching, ghost rowPotential: seq<real>, ghost colPotential: seq<real>)
    requires |cost| > 0 && Rectangular(cost, |cost[0]|) && |cost| <= |cost[0]|
    ensures |colPotential| == |cost[0]| + 1 && |rowPotential| == |cost| + 1
    ensures RowCertificate(cost, |cost[0]|, a, rowPotential[1..], colPotential[1..])
    ensures CostTo(cost, a, |a|) == -colPotential[0]
    ensures Optimal(cost, |cost[0]|, a)
  {
    var rows, cols := |cost|, |cost[0]|;
    var u, v := new real[rows + 1](_ => 0.0), new real[cols + 1](_ => 0.0);
    var p, previous := new nat[cols + 1](_ => 0), new nat[cols + 1](_ => 0);
    NothingInserted(cost, cols, u[..], v[..], p[..]);
    for row := 1 to rows + 1
      invariant Inserted(cost, cols, row - 1, u[..], v[..], p[..])
    {
      InsertRow(cost, cols, row, u, v, p, previous);
    }
    a := ReadMatching(p, rows);
    rowPotential, colPotential := u[..], v[..];
    Certified(cost, cols, rowPotential, colPotential, p[..], a);
    CostIsVirtualPotential(cost, cols, rowPotential, colPotential, a);
    RowCertificateOptimal(cost, cols, a, rowPotential[1..], colPotential[1..]);
  }

  method Transpose(cost: Matrix) returns (t: Matrix)
    requires |cost| > 0 && Rectangular(cost, |cost[0]|)
    ensures |t| == |cost[0]| && Rectangular(t, |cost|)
    ensures forall i, j :: 0 <= i < |cost| && 0 <= j < |cost[0]| ==> t[j][i] == cost[i][j]
  {
    var rows, cols := |cost|, |cost[0]|;
    t := seq(cols, _ => seq(rows, _ => 0.0));
    for i := 0 to rows
      invariant |t| == cols && Rectangular(t, rows)
      invariant forall k, j :: 0 <= k < i && 0 <= j < cols ==> t[j][k] == cost[k][j]
    {
      for j := 0 to cols
        invariant |t| == cols && Rectangular(t, rows)
        invariant forall k, l :: 0 <= k < i && 0 <= l < cols ==> t[l][k] == cost[k][l]
        invariant forall l :: 0 <= l < j ==> t[l][i] == cost[i][l]
      {
        t := t[j := t[j][i := cost[i][j]]];
      }
    }
  }

  /** The two matchings are each other's inverse relation. */
  ghost predicate Inverse(b: Matching, a: Matching, upTo: nat)
    requires upTo <= |b|
  {
    && (forall j :: 0 <= j < upTo && b[j].Some? ==> b[j].value < |a| && a[b[j].value] == Some(j))
    && (forall i :: 0 <= i < |a| && a[i].Some? ==> a[i].value < upTo && b[a[i].value] == Some(i))
  }

  lemma InvertOne(b: Matching, a: Matching, col: nat)
    requires col < |b| && Injective(b, |a|) && Inverse(b, a, col)
    ensures Inverse(b, if b[col].Some? then a[b[col].value := Some(col)] else a, col + 1)
  {
  }

  method Invert(b: Matching, rows: nat) returns (a: Matching)
    requires Injective(b, rows)
    ensures |a| == rows && Inverse(b, a, |b|)
  {
    var assignments := new Option<nat>[rows](_ => None);
    for col := 0 to |b|
      invariant Inverse(b, assignments[..], col)
    {
      ghost var a0 := assignments[..];
      InvertOne(b, a0, col);
      if b[col].Some? {
        assignments[b[col].value] := Some(col);
        assert assignments[..] == a0[b[col].value := Some(col)];
      }
    }
    a := assignments[..];
  }

  lemma TransposedCertificate(cost: Matrix, t: Matrix, b: Matching, a: Matching, u: seq<real>, v: seq<real>)
    requires |cost| > 0 && Rectangular(cost, |cost[0]|) && |t| == |cost[0]| && Rectangular(t, |cost|)
    requires forall i, j :: 0 <= i < |cost| && 0 <= j < |cost[0]| ==> t[j][i] == cost[i][j]
    requires RowCertificate(t, |cost|, b, v, u)
    requires |a| == |cost| && Inverse(b, a, |b|)
    ensures ColumnCertificate(cost, |cost[0]|, a, u, v)
  {
  }

  /** Without columns the empty matching is the only one. */
  lemma EmptyOptimal(cost: Matrix, a: Matching)
    requires Rectangular(cost, 0) && |a| == |cost| && Injective(a, 0)
    ensures Optimal(cost, 0, a) && CostTo(cost, a, |a|) == 0.0
  {
    NoColumns(cost, a, |a|);
    forall b | Full(cost, 0, b) ensures CostTo(cost, b, |b|) == 0.0 {
      NoColumns(cost, b, |b|);
    }
  }

  /** Minimum-cost assignment of any rectangular matrix, with more rows than columns or fewer. */
  method HungarianAlgorithm(cost: Matrix) returns (assignments: Matching, totalCost: real)
    requires |cost| > 0 ==> Rectangular(cost, |cost[0]|)
    ensures var cols := if |cost| == 0 then 0 else |cost[0]|;
            Optimal(cost, cols, assignments) && totalCost == CostTo(cost, assignments, |assignments|)
  {
    var rows := |cost|;
    if rows == 0 {
      EmptyOptimal(cost, []);
      return [], 0.0;
    }
    var cols := |cost[0]|;
    if cols == 0 {
      assignments, totalCost := seq(rows, _ => None), 0.0;
      EmptyOptimal(cost, assignments);
      return;
    }
    hide Optimal, CostTo, RowCertificate, ColumnCertificate;
    if rows <= cols {
      ghost var u, v;
      assignments, u, v := RectangularHungarian(cost);
    } else {
      var transposed := Transpose(cost);
      var inverse, v, u := RectangularHungarian(transposed);
      assignments := Invert(inverse, rows);
      TransposedCertificate(cost, transposed, inverse, assignments, u[1..], v[1..]);
      ColumnCertificateOptimal(cost, cols, assignments, u[1..], v[1..]);
    }
    totalCost := CostTo(cost, assignments, rows);
  }

  lemma {:induction false} NoColumns(cost: Matrix, a: Matching, n: nat)
    requires n <= |a| <= |cost| && Injective(a, 0)
    ensures CostTo(cost, a, n) == 0.0 && CountTo(a, n) == 0
  {
    if n == 0 {
    } else {
      NoColumns(cost, a, n - 1);
    }
  }
}
