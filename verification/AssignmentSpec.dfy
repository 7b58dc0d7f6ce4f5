/**
 * What it means for a partial matching of a cost matrix to be optimal, and why a pair of
 * potentials satisfying complementary slackness proves it (weak duality).
 *
 * Sums run over an explicit prefix length, so that every induction is on that length.
 */
module AssignmentSpec {
  import opened Wrappers

  type Matrix = seq<seq<real>>

  /** Entry i is the column given to row i, if any. */
  type Matching = seq<Option<nat>>

  ghost predicate Rectangular(cost: Matrix, cols: nat) {
    forall i :: 0 <= i < |cost| ==> |cost[i]| == cols
  }

  /** Columns are in range and no two rows share one. */
  ghost predicate Injective(a: Matching, cols: nat) {
    && (forall i :: 0 <= i < |a| && a[i].Some? ==> a[i].value < cols)
    && (forall i, k :: 0 <= i < k < |a| && a[i].Some? && a[k].Some? ==> a[i].value != a[k].value)
  }

  ghost predicate Hit(a: Matching, col: nat) {
    exists i :: 0 <= i < |a| && a[i] == Some(col)
  }

  function CountTo(a: Matching, n: nat): nat
    requires n <= |a|
  {
    if n == 0 then 0 else CountTo(a, n - 1) + (if a[n - 1].Some? then 1 else 0)
  }

  function SumTo(s: seq<real>, n: nat): real
    requires n <= |s|
  {
    if n == 0 then 0.0 else SumTo(s, n - 1) + s[n - 1]
  }

  /** Total cost of the matched pairs among the first n rows. */
  function CostTo(cost: Matrix, a: Matching, n: nat): real
    requires n <= |a| <= |cost|
    requires forall i :: 0 <= i < |a| && a[i].Some? ==> a[i].value < |cost[i]|
  {
    if n == 0 then 0.0
    else CostTo(cost, a, n - 1) + (if a[n - 1].Some? then cost[n - 1][a[n - 1].value] else 0.0)
  }

  /** Sum of the column weights the first n rows are matched to. */
  ghost function GatherTo(a: Matching, w: seq<real>, n: nat): real
    requires n <= |a|
    requires forall i :: 0 <= i < |a| && a[i].Some? ==> a[i].value < |w|
  {
    if n == 0 then 0.0
    else GatherTo(a, w, n - 1) + (if a[n - 1].Some? then w[a[n - 1].value] else 0.0)
  }

  /** Sum of the row weights of the matched rows among the first n. */
  ghost function RowsTo(a: Matching, u: seq<real>, n: nat): real
    requires n <= |a| <= |u|
  {
    if n == 0 then 0.0 else RowsTo(a, u, n - 1) + (if a[n - 1].Some? then u[n - 1] else 0.0)
  }

  function Min(x: nat, y: nat): nat { if x <= y then x else y }

  /** A matching of as many pairs as the matrix allows. */
  ghost predicate Full(cost: Matrix, cols: nat, a: Matching) {
    |a| == |cost| && Injective(a, cols) && CountTo(a, |a|) == Min(|cost|, cols)
  }

  ghost predicate Optimal(cost: Matrix, cols: nat, a: Matching)
    requires Rectangular(cost, cols)
  {
    && Full(cost, cols, a)
    && forall b :: Full(cost, cols, b) ==> CostTo(cost, a, |a|) <= CostTo(cost, b, |b|)
  }

  /** Potentials that bound every entry from below and are tight on the matched pairs. */
  ghost predicate DualTight(cost: Matrix, cols: nat, a: Matching, u: seq<real>, v: seq<real>)
    requires Rectangular(cost, cols)
  {
    && |a| == |cost| == |u| && |v| == cols && Injective(a, cols)
    && (forall i, j :: 0 <= i < |cost| && 0 <= j < cols ==> u[i] + v[j] <= cost[i][j])
    && (forall i :: 0 <= i < |cost| && a[i].Some? ==> u[i] + v[a[i].value] == cost[i][a[i].value])
  }

  /** Every row is matched; a column's weight is at most zero, and zero when the column is free. */
  ghost predicate RowCertificate(cost: Matrix, cols: nat, a: Matching, u: seq<real>, v: seq<real>)
    requires Rectangular(cost, cols)
  {
    && DualTight(cost, cols, a, u, v)
    && (forall i :: 0 <= i < |a| ==> a[i].Some?)
    && (forall j :: 0 <= j < cols ==> v[j] <= 0.0 && (v[j] == 0.0 || Hit(a, j)))
  }

  /** The mirror image: every column is matched and the slack is on the rows. */
  ghost predicate ColumnCertificate(cost: Matrix, cols: nat, a: Matching, u: seq<real>, v: seq<real>)
    requires Rectangular(cost, cols)
  {
    && DualTight(cost, cols, a, u, v)
    && (forall j :: 0 <= j < cols ==> Hit(a, j))
    && (forall i :: 0 <= i < |a| ==> u[i] <= 0.0 && (u[i] == 0.0 || a[i].Some?))
  }

  // ----- sums -----

  lemma {:induction false} SumUpdate(s: seq<real>, k: nat, x: real, n: nat)
    requires k < |s| && n <= |s|
    ensures SumTo(s[k := x], n) == SumTo(s, n) + (if k < n then x - s[k] else 0.0)
  {
    if n == 0 {
    } else {
      SumUpdate(s, k, x, n - 1);
    }
  }

  /** Dropping the first element of a sequence drops its value from the sum. */
  lemma {:induction false} SumTail(s: seq<real>, n: nat)
    requires 1 <= n <= |s|
    ensures SumTo(s, n) == s[0] + SumTo(s[1..], n - 1)
  {
    if n == 1 {
      assert SumTo(s, 0) == 0.0;
    } else {
      SumTail(s, n - 1);
      assert s[1..][n - 2] == s[n - 1];
    }
  }

  lemma {:induction false} GatherCongruence(a: Matching, w: seq<real>, w': seq<real>, n: nat)
    requires n <= |a| && |w| == |w'|
    requires forall i :: 0 <= i < |a| && a[i].Some? ==> a[i].value < |w|
    requires forall i :: 0 <= i < n && a[i].Some? ==> w[a[i].value] == w'[a[i].value]
    ensures GatherTo(a, w, n) == GatherTo(a, w', n)
  {
    if n == 0 {
    } else {
      GatherCongruence(a, w, w', n - 1);
    }
  }

  ghost predicate HitBefore(a: Matching, col: nat, n: nat)
    requires n <= |a|
  {
    exists i :: 0 <= i < n && a[i] == Some(col)
  }

  /** Non-positive weights: what an injective matching gathers is at least the whole sum. */
  lemma {:induction false} GatherAtLeast(a: Matching, w: seq<real>, n: nat)
    requires n <= |a| && Injective(a, |w|)
    requires forall j :: 0 <= j < |w| ==> w[j] <= 0.0
    ensures GatherTo(a, w, n) >= SumTo(w, |w|)
    decreases n
  {
    if n == 0 {
      SumNonPositive(w, |w|);
    } else if a[n - 1].None? {
      GatherAtLeast(a, w, n - 1);
    } else {
      var j := a[n - 1].value;
      GatherAtLeast(a, w[j := 0.0], n - 1);
      GatherCongruence(a, w, w[j := 0.0], n - 1);
      SumUpdate(w, j, 0.0, |w|);
    }
  }

  lemma {:induction false} SumNonPositive(w: seq<real>, n: nat)
    requires n <= |w|
    requires forall j :: 0 <= j < n ==> w[j] <= 0.0
    ensures SumTo(w, n) <= 0.0
  {
    if n == 0 {
    } else {
      SumNonPositive(w, n - 1);
    }
  }

  lemma {:induction false} SumZero(w: seq<real>, n: nat)
    requires n <= |w|
    requires forall j :: 0 <= j < n ==> w[j] == 0.0
    ensures SumTo(w, n) == 0.0
  {
    if n == 0 {
    } else {
      SumZero(w, n - 1);
    }
  }

  /** If every column with weight is hit, an injective matching gathers exactly the whole sum. */
  lemma {:induction false} GatherExactly(a: Matching, w: seq<real>, n: nat)
    requires n <= |a| && Injective(a, |w|)
    requires forall j :: 0 <= j < |w| && w[j] != 0.0 ==> HitBefore(a, j, n)
    ensures GatherTo(a, w, n) == SumTo(w, |w|)
    decreases n
  {
    if n == 0 {
      SumZero(w, |w|);
    } else if a[n - 1].None? {
      forall j | 0 <= j < |w| && w[j] != 0.0 ensures HitBefore(a, j, n - 1) {
        var i :| 0 <= i < n && a[i] == Some(j);
        assert i < n - 1;
      }
      GatherExactly(a, w, n - 1);
    } else {
      var k := a[n - 1].value;
      var w' := w[k := 0.0];
      forall j | 0 <= j < |w'| && w'[j] != 0.0 ensures HitBefore(a, j, n - 1) {
        assert HitBefore(a, j, n);
        var i :| 0 <= i < n && a[i] == Some(j);
        assert i < n - 1;
      }
      GatherExactly(a, w', n - 1);
      hide HitBefore, SumTo;
      GatherCongruence(a, w, w', n - 1);
      SumUpdate(w, k, 0.0, |w|);
    }
  }

  // ----- counting -----

  lemma {:induction false} CountAtMost(a: Matching, n: nat)
    requires n <= |a|
    ensures CountTo(a, n) <= n
    ensures CountTo(a, n) == n <==> forall i :: 0 <= i < n ==> a[i].Some?
  {
    if n == 0 {
    } else {
      CountAtMost(a, n - 1);
    }
  }

  ghost function Ones(n: nat): (w: seq<real>)
    ensures |w| == n && forall j :: 0 <= j < n ==> w[j] == 1.0
  {
    seq(n, _ => 1.0)
  }

  lemma {:induction false} GatherOnes(a: Matching, cols: nat, n: nat)
    requires n <= |a| && Injective(a, cols)
    ensures GatherTo(a, Ones(cols), n) == CountTo(a, n) as real
  {
    if n == 0 {
    } else {
      GatherOnes(a, cols, n - 1);
    }
  }

  ghost function HitWeights(a: Matching, cols: nat): (w: seq<real>)
    ensures |w| == cols && forall j :: 0 <= j < cols ==> w[j] == if Hit(a, j) then 1.0 else 0.0
  {
    seq(cols, j requires 0 <= j < cols => if Hit(a, j) then 1.0 else 0.0)
  }

  lemma {:induction false} SumHitWeights(a: Matching, cols: nat, n: nat)
    requires n <= cols
    ensures SumTo(HitWeights(a, cols), n) <= n as real
    ensures SumTo(HitWeights(a, cols), n) == n as real <==> forall j :: 0 <= j < n ==> Hit(a, j)
  {
    if n == 0 {
    } else {
      SumHitWeights(a, cols, n - 1);
    }
  }

  /** An injective matching has as many pairs as columns exactly when it hits every column. */
  lemma CountIsColumns(a: Matching, cols: nat)
    requires Injective(a, cols)
    ensures CountTo(a, |a|) == cols <==> forall j :: 0 <= j < cols ==> Hit(a, j)
  {
    var w := HitWeights(a, cols);
    forall j | 0 <= j < cols && w[j] != 0.0 ensures HitBefore(a, j, |a|) {
      assert Hit(a, j);
    }
    GatherExactly(a, w, |a|);
    forall i | 0 <= i < |a| && a[i].Some? ensures w[a[i].value] == Ones(cols)[a[i].value] {
      assert Hit(a, a[i].value);
    }
    GatherCongruence(a, w, Ones(cols), |a|);
    GatherOnes(a, cols, |a|);
    SumHitWeights(a, cols, cols);
  }

  // ----- weak duality -----

  lemma {:induction false} CostAtLeastDual(cost: Matrix, cols: nat, b: Matching, u: seq<real>, v: seq<real>, n: nat)
    requires Rectangular(cost, cols) && n <= |b| == |cost| == |u| && |v| == cols && Injective(b, cols)
    requires forall i, j :: 0 <= i < |cost| && 0 <= j < cols ==> u[i] + v[j] <= cost[i][j]
    ensures CostTo(cost, b, n) >= RowsTo(b, u, n) + GatherTo(b, v, n)
  {
    if n == 0 {
    } else {
      CostAtLeastDual(cost, cols, b, u, v, n - 1);
    }
  }

  lemma {:induction false} CostEqualsDual(cost: Matrix, cols: nat, a: Matching, u: seq<real>, v: seq<real>, n: nat)
    requires Rectangular(cost, cols) && DualTight(cost, cols, a, u, v) && n <= |a|
    ensures CostTo(cost, a, n) == RowsTo(a, u, n) + GatherTo(a, v, n)
  {
    if n == 0 {
    } else {
      CostEqualsDual(cost, cols, a, u, v, n - 1);
    }
  }

  lemma {:induction false} RowsAll(a: Matching, u: seq<real>, n: nat)
    requires n <= |a| <= |u|
    requires forall i :: 0 <= i < n && u[i] != 0.0 ==> a[i].Some?
    ensures RowsTo(a, u, n) == SumTo(u, n)
  {
    if n == 0 {
    } else {
      RowsAll(a, u, n - 1);
    }
  }

  lemma {:induction false} RowsAtLeast(a: Matching, u: seq<real>, n: nat)
    requires n <= |a| <= |u|
    requires forall i :: 0 <= i < n ==> u[i] <= 0.0
    ensures RowsTo(a, u, n) >= SumTo(u, n)
  {
    if n == 0 {
    } else {
      RowsAtLeast(a, u, n - 1);
    }
  }

  /** A certified matching of all rows costs exactly the sum of both potentials. */
  lemma RowCertificateCost(cost: Matrix, cols: nat, a: Matching, u: seq<real>, v: seq<real>)
    requires Rectangular(cost, cols) && RowCertificate(cost, cols, a, u, v)
    ensures CostTo(cost, a, |a|) == SumTo(u, |u|) + SumTo(v, cols)
  {
    CostEqualsDual(cost, cols, a, u, v, |a|);
    RowsAll(a, u, |a|);
    forall j | 0 <= j < cols && v[j] != 0.0 ensures HitBefore(a, j, |a|) {
      assert Hit(a, j);
    }
    GatherExactly(a, v, |a|);
  }

  /** A matching that leaves no row unmatched and has such potentials is optimal. */
  lemma RowCertificateOptimal(cost: Matrix, cols: nat, a: Matching, u: seq<real>, v: seq<real>)
    requires Rectangular(cost, cols) && |cost| <= cols
    requires RowCertificate(cost, cols, a, u, v)
    ensures Optimal(cost, cols, a)
  {
    CountAtMost(a, |a|);
    RowCertificateCost(cost, cols, a, u, v);
    forall b | Full(cost, cols, b) ensures CostTo(cost, a, |a|) <= CostTo(cost, b, |b|) {
      CountAtMost(b, |b|);
      CostAtLeastDual(cost, cols, b, u, v, |b|);
      RowsAll(b, u, |b|);
      GatherAtLeast(b, v, |b|);
    }
  }

  /** The same with rows and columns exchanged, for matrices with more rows than columns. */
  lemma ColumnCertificateOptimal(cost: Matrix, cols: nat, a: Matching, u: seq<real>, v: seq<real>)
    requires Rectangular(cost, cols) && cols <= |cost|
    requires ColumnCertificate(cost, cols, a, u, v)
    ensures Optimal(cost, cols, a)
  {
    CountIsColumns(a, cols);
    CostEqualsDual(cost, cols, a, u, v, |a|);
    RowsAll(a, u, |a|);
    forall j | 0 <= j < cols && v[j] != 0.0 ensures HitBefore(a, j, |a|) {
      assert Hit(a, j);
    }
    GatherExactly(a, v, |a|);
    forall b | Full(cost, cols, b) ensures CostTo(cost, a, |a|) <= CostTo(cost, b, |b|) {
      CountIsColumns(b, cols);
      CostAtLeastDual(cost, cols, b, u, v, |b|);
      RowsAtLeast(b, u, |b|);
      forall j | 0 <= j < cols && v[j] != 0.0 ensures HitBefore(b, j, |b|) {
        assert Hit(b, j);
      }
      GatherExactly(b, v, |b|);
    }
  }
}
