/**
 * Lookup tables between the active angle of the four-bar linkage and its output knee angle, over
 * the reals. The linkage's own geometry is a parameter: any function from angle to knee.
 */
module LookupTable {
  import opened RealArithmetic

  const EPSILON: real := 1.0 / 4503599627370496.0

  type Grid = seq<real>

  function Clamp(q: real, lo: real, hi: real): real {
    if q < lo then lo else if q > hi then hi else q
  }

  function Max(a: real, b: real): real { if a < b then b else a }

  ghost predicate StrictlyIncreasing(x: Grid) {
    forall i, j :: 0 <= i < j < |x| ==> x[i] < x[j]
  }

  ghost predicate StrictlyDecreasing(x: Grid) {
    forall i, j :: 0 <= i < j < |x| ==> x[i] > x[j]
  }

  /** Neighbours are far enough apart for the divisor not to be replaced by the machine epsilon. */
  ghost predicate WideGaps(x: Grid) {
    forall i :: 0 <= i < |x| - 1 ==> x[i + 1] - x[i] >= EPSILON || x[i] - x[i + 1] >= EPSILON
  }

  datatype Located = Found(index: nat) | Absent(insertion: nat)

  /** Bisection of the part of the grid between lo and hi. */
  function Locate(x: Grid, q: real, lo: nat, hi: nat): (r: Located)
    requires lo <= hi <= |x| && StrictlyIncreasing(x)
    requires (forall i :: 0 <= i < lo ==> x[i] < q) && (forall i :: hi <= i < |x| ==> q < x[i])
    ensures r.Found? ==> r.index < |x| && x[r.index] == q
    ensures r.Absent? ==>
              && r.insertion <= |x|
              && (forall i :: 0 <= i < r.insertion ==> x[i] < q)
              && (forall i :: r.insertion <= i < |x| ==> q < x[i])
    decreases hi - lo
  {
    if lo == hi then Absent(lo)
    else
      var mid := (lo + hi) / 2;
      if x[mid] == q then Found(mid)
      else if x[mid] < q then Locate(x, q, mid + 1, hi)
      else Locate(x, q, lo, mid)
  }

  function Blend(q: real, x0: real, x1: real, y0: real, y1: real): real {
    y0 + (q - x0) / Max(x1 - x0, EPSILON) * (y1 - y0)
  }

  function InterpLut(query: real, x: Grid, y: Grid): real
    requires |x| == |y| >= 1 && StrictlyIncreasing(x)
  {
    var q := Clamp(query, x[0], x[|x| - 1]);
    match Locate(x, q, 0, |x|)
    case Found(i) => y[i]
    case Absent(hi) => Blend(q, x[hi - 1], x[hi], y[hi - 1], y[hi])
  }

  // ----- one segment -----

  function Weight(q: real, x0: real, x1: real): real
    requires x0 < x1
  {
    (q - x0) / (x1 - x0)
  }

  /** The point a share w of the way from y0 to y1. */
  function Along(w: real, y0: real, y1: real): real { y0 + w * (y1 - y0) }

  /** The straight line through two points. */
  function Line(q: real, x0: real, x1: real, y0: real, y1: real): real
    requires x0 < x1
  {
    Along(Weight(q, x0, x1), y0, y1)
  }

  lemma WeightBounds(q: real, x0: real, x1: real)
    requires x0 <= q <= x1 && x0 < x1
    ensures 0.0 <= Weight(q, x0, x1) <= 1.0
    ensures Along(Weight(q, x0, x1), x0, x1) == q
    ensures q == x0 ==> Weight(q, x0, x1) == 0.0
    ensures q == x1 ==> Weight(q, x0, x1) == 1.0
  {
    var w, d := Weight(q, x0, x1), x1 - x0;
    assert w * d == q - x0;
    ProductOrder(w, 0.0, d);
    ProductOrder(1.0, w, d);
    assert 1.0 * d == d && 0.0 * d == 0.0;
  }

  /** Weight reads off how far along a point is. */
  lemma AlongWeight(w: real, y0: real, y1: real)
    requires 0.0 <= w <= 1.0 && y0 < y1
    ensures y0 <= Along(w, y0, y1) <= y1 && Weight(Along(w, y0, y1), y0, y1) == w
  {
    hide Along, Times;
    AlongIs(w, y0, y1);
    TimesShare(w, y1 - y0);
    TimesDivided(w, y1 - y0, Along(w, y0, y1) - y0);
  }

  lemma AlongIs(w: real, y0: real, y1: real)
    ensures Along(w, y0, y1) == y0 + Times(w, y1 - y0)
  {
  }

  lemma TimesShare(w: real, d: real)
    requires 0.0 <= w <= 1.0 && d >= 0.0
    ensures 0.0 <= Times(w, d) <= d
  {
    Scale(w, d);
  }

  lemma TimesStrictly(w: real, d: real)
    requires 0.0 < w < 1.0
    ensures d > 0.0 ==> 0.0 < Times(w, d) < d
    ensures d < 0.0 ==> d < Times(w, d) < 0.0
  {
    hide Times;
    TimesOf(w, d);
    if d > 0.0 {
      StrictScale(w, d);
    } else if d < 0.0 {
      StrictScale(w, -d);
      Negated(w, d);
    }
  }

  lemma TimesOf(w: real, d: real)
    ensures Times(w, d) == w * d
  {
  }

  lemma TimesDivided(w: real, d: real, p: real)
    requires d != 0.0 && p == Times(w, d)
    ensures p / d == w
  {
    DivideBack(w, d, p);
  }

  lemma AlongFlip(w: real, y0: real, y1: real)
    ensures Along(1.0 - w, y1, y0) == Along(w, y0, y1)
  {
    var d := y1 - y0;
    assert (1.0 - w) * (y0 - y1) == w * d - d;
  }

  lemma BlendIsLine(q: real, x0: real, x1: real, y0: real, y1: real)
    requires x1 - x0 >= EPSILON
    ensures x0 < x1 && Blend(q, x0, x1, y0, y1) == Line(q, x0, x1, y0, y1)
  {
  }

  lemma LineEnds(x0: real, x1: real, y0: real, y1: real)
    requires x0 < x1
    ensures Line(x0, x0, x1, y0, y1) == y0 && Line(x1, x0, x1, y0, y1) == y1
  {
    WeightBounds(x0, x0, x1);
    WeightBounds(x1, x0, x1);
  }

  /** With wide gaps the value on a segment is on the line through its ends. */
  lemma OnSegment(query: real, x: Grid, y: Grid, i: nat)
    requires |x| == |y| && i + 1 < |x| && StrictlyIncreasing(x) && WideGaps(x)
    requires x[i] <= query <= x[i + 1]
    ensures InterpLut(query, x, y) == Line(query, x[i], x[i + 1], y[i], y[i + 1])
  {
    hide Locate, Line, Blend;
    BlendIsLine(query, x[i], x[i + 1], y[i], y[i + 1]);
    LineEnds(x[i], x[i + 1], y[i], y[i + 1]);
    assert x[0] <= x[i] && x[i + 1] <= x[|x| - 1];
    assert Clamp(query, x[0], x[|x| - 1]) == query;
    match Locate(x, query, 0, |x|)
    case Found(k) =>
      assert k == i || k == i + 1;
    case Absent(hi) =>
      assert hi == i + 1;
  }

  /** Every query in range lies on a segment. */
  lemma SegmentOf(q: real, x: Grid) returns (i: nat)
    requires |x| >= 2 && StrictlyIncreasing(x) && x[0] <= q <= x[|x| - 1]
    ensures i + 1 < |x| && x[i] <= q <= x[i + 1]
  {
    i := 0;
    while x[i + 1] < q
      invariant i + 1 < |x| && x[i] <= q
      decreases |x| - i
    {
      i := i + 1;
    }
  }

  lemma InterpClamps(query: real, x: Grid, y: Grid)
    requires |x| == |y| >= 1 && StrictlyIncreasing(x)
    ensures InterpLut(query, x, y) == InterpLut(Clamp(query, x[0], x[|x| - 1]), x, y)
  {
  }

  // ----- the inverse table -----

  function Reverse(x: Grid): (r: Grid)
    ensures |r| == |x| && forall i :: 0 <= i < |x| ==> r[i] == x[|x| - 1 - i]
  {
    seq(|x|, i requires 0 <= i < |x| => x[|x| - 1 - i])
  }

  predicate Rises(x: Grid) { forall i :: 0 <= i < |x| - 1 ==> x[i + 1] >= x[i] }

  predicate Falls(x: Grid) { forall i :: 0 <= i < |x| - 1 ==> x[i + 1] <= x[i] }

  datatype Inverse = Inverse(knee: Grid, alpha: Grid) | NotMonotonic

  function InverseLutGrids(knee: Grid, alpha: Grid): Inverse {
    if Rises(knee) then Inverse(knee, alpha)
    else if Falls(knee) then Inverse(Reverse(knee), Reverse(alpha))
    else NotMonotonic
  }

  ghost predicate Monotone(x: Grid, y: Grid) {
    |x| == |y| >= 2 && StrictlyIncreasing(x) && (StrictlyIncreasing(y) || StrictlyDecreasing(y))
  }

  /** What the round-trip theorems ask of a pair of grids. */
  ghost predicate Invertible(x: Grid, y: Grid) {
    Monotone(x, y) && WideGaps(x) && WideGaps(y)
  }

  /** The inverse table of a strictly monotone one has increasing knees. */
  lemma InverseOfMonotone(x: Grid, y: Grid)
    requires Monotone(x, y)
    ensures var inv := InverseLutGrids(y, x);
            && inv == (if StrictlyIncreasing(y) then Inverse(y, x) else Inverse(Reverse(y), Reverse(x)))
            && |inv.knee| == |inv.alpha| && StrictlyIncreasing(inv.knee)
            && (StrictlyIncreasing(inv.alpha) || StrictlyDecreasing(inv.alpha))
  {
    assert y[0] < y[1] || y[0] > y[1];
    if StrictlyDecreasing(y) {
      assert !Rises(y);
    }
  }

  lemma InverseGrids(x: Grid, y: Grid)
    requires Invertible(x, y)
    ensures InverseLutGrids(y, x) ==
            if StrictlyIncreasing(y) then Inverse(y, x) else Inverse(Reverse(y), Reverse(x))
    ensures var inv := InverseLutGrids(y, x); Invertible(inv.knee, inv.alpha)
  {
    hide WideGaps, StrictlyIncreasing, StrictlyDecreasing, InverseLutGrids;
    InverseOfMonotone(x, y);
    ReverseKeepsGaps(x);
    ReverseKeepsGaps(y);
  }

  lemma ReverseKeepsGaps(x: Grid)
    requires WideGaps(x)
    ensures WideGaps(Reverse(x))
  {
  }

  /** A line's values lie between its ends, and the line through the swapped points undoes it. */
  lemma LineBack(q: real, x0: real, x1: real, y0: real, y1: real)
    requires x0 <= q <= x1 && x0 < x1 && y0 != y1
    ensures var v := Line(q, x0, x1, y0, y1);
            if y0 < y1 then y0 <= v <= y1 && Line(v, y0, y1, x0, x1) == q
            else y1 <= v <= y0 && Line(v, y1, y0, x1, x0) == q
  {
    hide Weight, Along;
    WeightBounds(q, x0, x1);
    var w := Weight(q, x0, x1);
    if y0 < y1 {
      AlongWeight(w, y0, y1);
    } else {
      AlongFlip(w, y0, y1);
      AlongFlip(w, x0, x1);
      AlongWeight(1.0 - w, y1, y0);
    }
  }

  lemma UndoneOnSegment(q: real, x: Grid, y: Grid, i: nat)
    requires Invertible(x, y) && i + 1 < |x| && x[i] <= q <= x[i + 1]
    ensures StrictlyIncreasing(y) ==> InterpLut(InterpLut(q, x, y), y, x) == q
    ensures StrictlyDecreasing(y) ==>
              StrictlyIncreasing(Reverse(y)) && InterpLut(InterpLut(q, x, y), Reverse(y), Reverse(x)) == q
  {
    InverseGrids(x, y);
    hide InterpLut, Line, WideGaps, InverseLutGrids;
    OnSegment(q, x, y, i);
    LineBack(q, x[i], x[i + 1], y[i], y[i + 1]);
    var v := InterpLut(q, x, y);
    if StrictlyIncreasing(y) {
      OnSegment(v, y, x, i);
    }
    if StrictlyDecreasing(y) {
      var k := |x| - 2 - i;
      var ry, rx := Reverse(y), Reverse(x);
      assert ry[k] == y[i + 1] && ry[k + 1] == y[i] && rx[k] == x[i + 1] && rx[k + 1] == x[i];
      OnSegment(v, ry, rx, k);
    }
  }

  /** Looking up and then looking the value up in the inverse table gives the clamped query back. */
  lemma InverseUndoes(query: real, x: Grid, y: Grid)
    requires Invertible(x, y)
    ensures var inv := InverseLutGrids(y, x);
            && inv.Inverse? && Invertible(inv.knee, inv.alpha)
            && InterpLut(InterpLut(query, x, y), inv.knee, inv.alpha) == Clamp(query, x[0], x[|x| - 1])
  {
    InverseGrids(x, y);
    hide InterpLut, WideGaps, InverseLutGrids;
    InterpClamps(query, x, y);
    var q := Clamp(query, x[0], x[|x| - 1]);
    var i := SegmentOf(q, x);
    UndoneOnSegment(q, x, y, i);
  }

  /** The inverse of the inverse table is the table. */
  lemma InverseOfInverse(x: Grid, y: Grid)
    requires Invertible(x, y)
    ensures var inv := InverseLutGrids(y, x); inv.Inverse? && InverseLutGrids(inv.alpha, inv.knee) == Inverse(x, y)
  {
    InverseGrids(x, y);
    if StrictlyIncreasing(y) {
      InverseGrids(y, x);
    } else {
      FallingTwice(x, y);
    }
  }

  lemma ReverseTwice(x: Grid)
    ensures Reverse(Reverse(x)) == x
  {
  }

  lemma ReversedFalls(x: Grid)
    requires |x| >= 2 && StrictlyIncreasing(x)
    ensures !StrictlyIncreasing(Reverse(x))
  {
    var r := Reverse(x);
    assert r[0] == x[|x| - 1] && r[1] == x[|x| - 2];
  }

  lemma FallingTwice(x: Grid, y: Grid)
    requires Invertible(x, y) && StrictlyDecreasing(y) && Invertible(Reverse(y), Reverse(x))
    ensures InverseLutGrids(Reverse(x), Reverse(y)) == Inverse(x, y)
  {
    ReversedFalls(x);
    ReverseTwice(x);
    ReverseTwice(y);
    hide *;
    InverseGrids(Reverse(y), Reverse(x));
  }

  /** The other order: from knee to angle and back. */
  lemma ForwardUndoesInverse(query: real, x: Grid, y: Grid)
    requires Invertible(x, y)
    ensures var inv := InverseLutGrids(y, x);
            && inv.Inverse? && Invertible(inv.knee, inv.alpha)
            && InterpLut(InterpLut(query, inv.knee, inv.alpha), x, y) == Clamp(query, inv.knee[0], inv.knee[|x| - 1])
  {
    InverseGrids(x, y);
    InverseOfInverse(x, y);
    var inv := InverseLutGrids(y, x);
    InverseUndoes(query, inv.knee, inv.alpha);
  }

  // ----- values and monotonicity, however narrow the gaps -----

  /** Strictly inside a segment the value is blended, however narrow the segment. */
  lemma InsideSegment(q: real, x: Grid, y: Grid, i: nat)
    requires |x| == |y| && i + 1 < |x| && StrictlyIncreasing(x) && x[i] < q < x[i + 1]
    ensures InterpLut(q, x, y) == Blend(q, x[i], x[i + 1], y[i], y[i + 1])
  {
  }

  /** Blending turns a step along x into a proportional step along y. */
  lemma BlendStep(q: real, r: real, x0: real, x1: real, y0: real, y1: real) returns (p: real)
    ensures p * Max(x1 - x0, EPSILON) == r - q
    ensures Blend(r, x0, x1, y0, y1) - Blend(q, x0, x1, y0, y1) == p * (y1 - y0)
  {
    var m := Max(x1 - x0, EPSILON);
    var a, b := (q - x0) / m, (r - x0) / m;
    Quotient(q - x0, m);
    Quotient(r - x0, m);
    p := b - a;
    assert p * m == b * m - a * m;
    assert p * (y1 - y0) == b * (y1 - y0) - a * (y1 - y0);
  }

  lemma BlendInside(q: real, x0: real, x1: real, y0: real, y1: real)
    requires x0 < q < x1 && y0 != y1
    ensures if y0 < y1 then y0 < Blend(q, x0, x1, y0, y1) < y1 else y1 < Blend(q, x0, x1, y0, y1) < y0
  {
    hide Blend, Along;
    var m := Max(x1 - x0, EPSILON);
    var w := (q - x0) / m;
    Quotient(q - x0, m);
    StrictShare(w, m);
    BlendIs(q, x0, x1, y0, y1);
    AlongStrictly(w, y0, y1);
  }

  lemma BlendIs(q: real, x0: real, x1: real, y0: real, y1: real)
    ensures Blend(q, x0, x1, y0, y1) == Along((q - x0) / Max(x1 - x0, EPSILON), y0, y1)
  {
  }

  lemma AlongStrictly(w: real, y0: real, y1: real)
    requires 0.0 < w < 1.0
    ensures y0 < y1 ==> y0 < Along(w, y0, y1) < y1
    ensures y0 > y1 ==> y0 > Along(w, y0, y1) > y1
  {
    hide Along, Times;
    AlongIs(w, y0, y1);
    TimesStrictly(w, y1 - y0);
  }

  lemma StrictShare(w: real, m: real)
    requires 0.0 < w * m < m
    ensures 0.0 < w < 1.0
  {
    ProductOrder(0.0, w, m);
    ProductOrder(w, 1.0, m);
    assert 0.0 * m == 0.0 && 1.0 * m == m;
  }

  lemma AtKnot(x: Grid, y: Grid, i: nat)
    requires |x| == |y| && i < |x| && StrictlyIncreasing(x)
    ensures InterpLut(x[i], x, y) == y[i]
  {
    assert x[0] <= x[i] <= x[|x| - 1];
    match Locate(x, x[i], 0, |x|)
    case Found(k) =>
      assert k == i;
    case Absent(hi) =>
      assert false;
  }

  /** Every query in range is a knot or strictly inside the segment behind one. */
  lemma PlaceOf(q: real, x: Grid) returns (i: nat)
    requires |x| >= 1 && StrictlyIncreasing(x) && x[0] <= q <= x[|x| - 1]
    ensures i < |x| && (q == x[i] || (i + 1 < |x| && x[i] < q < x[i + 1]))
  {
    i := 0;
    while i + 1 < |x| && x[i + 1] <= q
      invariant i < |x| && x[i] <= q
      decreases |x| - i
    {
      i := i + 1;
    }
  }

  /** A lookup never leaves the bounds of the table's values, monotone or not. */
  lemma InterpWithin(query: real, x: Grid, y: Grid, lo: real, hi: real)
    requires |x| == |y| >= 1 && StrictlyIncreasing(x)
    requires forall i :: 0 <= i < |y| ==> lo <= y[i] <= hi
    ensures lo <= InterpLut(query, x, y) <= hi
  {
    hide InterpLut;
    InterpClamps(query, x, y);
    var q := Clamp(query, x[0], x[|x| - 1]);
    var i := PlaceOf(q, x);
    if q == x[i] {
      AtKnot(x, y, i);
    } else {
      InterpBetween(q, x, y, i, lo, hi);
    }
  }

  /** On one segment the lookup stays within any bounds of the values at its ends. */
  lemma InterpBetween(q: real, x: Grid, y: Grid, i: nat, lo: real, hi: real)
    requires |x| == |y| && i + 1 < |x| && StrictlyIncreasing(x) && x[i] <= q <= x[i + 1]
    requires lo <= y[i] <= hi && lo <= y[i + 1] <= hi
    ensures lo <= InterpLut(q, x, y) <= hi
  {
    hide InterpLut, Blend;
    if q == x[i] {
      AtKnot(x, y, i);
    } else if q == x[i + 1] {
      AtKnot(x, y, i + 1);
    } else {
      InsideSegment(q, x, y, i);
      if y[i] == y[i + 1] {
        FlatBlend(q, x[i], x[i + 1], y[i]);
      } else {
        BlendInside(q, x[i], x[i + 1], y[i], y[i + 1]);
      }
    }
  }

  lemma FlatBlend(q: real, x0: real, x1: real, y: real)
    ensures Blend(q, x0, x1, y, y) == y
  {
  }

  /** The lookup stays between the first and last value. */
  lemma InterpInRange(query: real, x: Grid, y: Grid)
    requires Monotone(x, y)
    ensures var v := InterpLut(query, x, y);
            if StrictlyIncreasing(y) then y[0] <= v <= y[|y| - 1] else y[|y| - 1] <= v <= y[0]
  {
    hide InterpLut;
    var first, last := y[0], y[|y| - 1];
    InterpWithin(query, x, y, if first < last then first else last, if first < last then last else first);
  }

  /** How a value lies to the knots around it: at the first, or beyond it and before the next. */
  ghost predicate Beyond(v: real, y: Grid, i: nat, atKnot: bool)
    requires i < |y| && (atKnot || i + 1 < |y|)
  {
    if atKnot then v == y[i]
    else if y[i] < y[i + 1] then y[i] < v < y[i + 1]
    else y[i + 1] < v < y[i]
  }

  lemma ValueAt(q: real, x: Grid, y: Grid, i: nat)
    requires Monotone(x, y) && i < |x| && (q == x[i] || (i + 1 < |x| && x[i] < q < x[i + 1]))
    ensures Beyond(InterpLut(q, x, y), y, i, q == x[i])
  {
    hide InterpLut, Blend;
    if q == x[i] {
      AtKnot(x, y, i);
    } else {
      InsideSegment(q, x, y, i);
      BlendInside(q, x[i], x[i + 1], y[i], y[i + 1]);
    }
  }

  lemma BlendMonotone(q: real, r: real, x0: real, x1: real, y0: real, y1: real)
    requires q < r
    ensures y0 < y1 ==> Blend(q, x0, x1, y0, y1) < Blend(r, x0, x1, y0, y1)
    ensures y0 > y1 ==> Blend(q, x0, x1, y0, y1) > Blend(r, x0, x1, y0, y1)
  {
    var p := BlendStep(q, r, x0, x1, y0, y1);
    hide Blend;
    var m, d := Max(x1 - x0, EPSILON), y1 - y0;
    ProductOrder(0.0, p, m);
    assert 0.0 * m == 0.0 && 0.0 * d == 0.0;
    OrderTimes(0.0, p, d);
  }

  /** The lookup is strictly monotone the way the values are. */
  lemma InterpMonotone(q: real, r: real, x: Grid, y: Grid)
    requires Monotone(x, y) && x[0] <= q < r <= x[|x| - 1]
    ensures if StrictlyIncreasing(y) then InterpLut(q, x, y) < InterpLut(r, x, y)
            else InterpLut(q, x, y) > InterpLut(r, x, y)
  {
    hide InterpLut, Blend;
    var i := PlaceOf(q, x);
    var k := PlaceOf(r, x);
    ValueAt(q, x, y, i);
    ValueAt(r, x, y, k);
    if i == k {
      if q != x[i] {
        InsideSegment(q, x, y, i);
        InsideSegment(r, x, y, i);
        BlendMonotone(q, r, x[i], x[i + 1], y[i], y[i + 1]);
      }
    } else {
      assert i < k && (y[0] < y[1] || y[0] > y[1]);
    }
  }

  // ----- secant slopes -----

  /** A slope over a step. */
  function Times(m: real, d: real): real { m * d }

  /** From knot `first` to the knot behind `last`, neighbours lie at a slope between lo and hi. */
  ghost predicate SlopesWithin(x: Grid, y: Grid, first: nat, last: nat, lo: real, hi: real)
    requires |x| == |y|
  {
    forall i :: first <= i <= last && i + 1 < |x| ==>
      Times(lo, x[i + 1] - x[i]) <= y[i + 1] - y[i] <= Times(hi, x[i + 1] - x[i])
  }

  lemma TimesAdd(m: real, a: real, b: real)
    ensures Times(m, a + b) == Times(m, a) + Times(m, b)
  {
  }

  lemma LineSecant(q: real, r: real, x0: real, x1: real, y0: real, y1: real, lo: real, hi: real)
    requires q <= r && x0 < x1 && Times(lo, x1 - x0) <= y1 - y0 <= Times(hi, x1 - x0)
    ensures Times(lo, r - q) <= Line(r, x0, x1, y0, y1) - Line(q, x0, x1, y0, y1) <= Times(hi, r - q)
  {
    var d, e, p := x1 - x0, y1 - y0, (r - q) / (x1 - x0);
    Quotient(r - q, d);
    SplitQuotient(r - x0, q - x0, d);
    assert Weight(r, x0, x1) - Weight(q, x0, x1) == p;
    assert Line(r, x0, x1, y0, y1) - Line(q, x0, x1, y0, y1) == p * e by {
      assert Weight(r, x0, x1) * e - Weight(q, x0, x1) * e == p * e;
    }
    hide Line, Weight;
    assert p >= 0.0 by { QuotientSign(r - q, d); }
    ScaledSlopes(p, d, e, lo, hi);
  }

  lemma ScaledSlopes(p: real, d: real, e: real, lo: real, hi: real)
    requires p >= 0.0 && Times(lo, d) <= e <= Times(hi, d)
    ensures Times(lo, p * d) <= p * e <= Times(hi, p * d)
  {
    assert p * (e - lo * d) >= 0.0 && p * (hi * d - e) >= 0.0;
    assert p * (lo * d) == lo * (p * d) && p * (hi * d) == hi * (p * d);
  }

  /** A lookup table whose neighbours' slopes are bounded has every secant bounded alike. */
  lemma {:induction false} SecantBetween(q: real, r: real, x: Grid, y: Grid, i: nat, k: nat, lo: real, hi: real)
    requires |x| == |y| && StrictlyIncreasing(x) && WideGaps(x) && SlopesWithin(x, y, i, k, lo, hi)
    requires i <= k && k + 1 < |x| && x[i] <= q <= x[i + 1] && x[k] <= r <= x[k + 1] && q <= r
    ensures Times(lo, r - q) <= InterpLut(r, x, y) - InterpLut(q, x, y) <= Times(hi, r - q)
    decreases k - i
  {
    hide InterpLut, Line, WideGaps, Times;
    if i == k {
      OnSegment(q, x, y, i);
      OnSegment(r, x, y, i);
      LineSecant(q, r, x[i], x[i + 1], y[i], y[i + 1], lo, hi);
    } else {
      var knot := x[k];
      SecantBetween(q, knot, x, y, i, k - 1, lo, hi);
      OnSegment(knot, x, y, k);
      OnSegment(r, x, y, k);
      LineSecant(knot, r, x[k], x[k + 1], y[k], y[k + 1], lo, hi);
      TimesAdd(lo, knot - q, r - knot);
      TimesAdd(hi, knot - q, r - knot);
    }
  }

  // ----- the gap condition is necessary -----

  function ThereAndBack(query: real, x: Grid, y: Grid): real
    requires Monotone(x, y)
  {
    InverseOfMonotone(x, y);
    var inv := InverseLutGrids(y, x);
    InterpLut(InterpLut(query, x, y), inv.knee, inv.alpha)
  }

  /** Two proportional steps cancel only when neither divisor was replaced. */
  lemma StepsCancel(p: real, b: real, d: real, m: real, e: real, n: real)
    requires p > 0.0 && 0.0 < d <= m && 0.0 < e <= n
    requires b * n == p * e && b * d == p * m
    ensures d == m && e == n
  {
  }

  /** Blending there and back over one segment; the inverse table lists its ends by rising knee. */
  function BlendBack(q: real, x0: real, x1: real, y0: real, y1: real): real {
    var v := Blend(q, x0, x1, y0, y1);
    if y0 < y1 then Blend(v, y0, y1, x0, x1) else Blend(v, y1, y0, x1, x0)
  }

  lemma InverseSegment(x: Grid, y: Grid, i: nat) returns (k: nat)
    requires Monotone(x, y) && i + 1 < |x|
    ensures var inv := InverseLutGrids(y, x);
            && inv.Inverse? && |inv.knee| == |inv.alpha| == |x| && StrictlyIncreasing(inv.knee)
            && k + 1 < |x| && y[i] != y[i + 1]
            && if y[i] < y[i + 1] then inv.knee[k..k + 2] == y[i..i + 2] && inv.alpha[k..k + 2] == x[i..i + 2]
               else inv.knee[k..k + 2] == [y[i + 1], y[i]] && inv.alpha[k..k + 2] == [x[i + 1], x[i]]
  {
    hide InverseLutGrids;
    InverseOfMonotone(x, y);
    if StrictlyIncreasing(y) {
      k := i;
    } else {
      k := |x| - 2 - i;
      assert Reverse(y)[k..k + 2] == [y[i + 1], y[i]] && Reverse(x)[k..k + 2] == [x[i + 1], x[i]];
    }
  }

  lemma BackInside(q: real, x: Grid, y: Grid, i: nat)
    requires Monotone(x, y) && i + 1 < |x| && x[i] < q < x[i + 1]
    ensures ThereAndBack(q, x, y) == BlendBack(q, x[i], x[i + 1], y[i], y[i + 1])
  {
    var k := InverseSegment(x, y, i);
    var inv := InverseLutGrids(y, x);
    hide Blend, InterpLut, InverseLutGrids;
    InsideSegment(q, x, y, i);
    BlendInside(q, x[i], x[i + 1], y[i], y[i + 1]);
    var v := InterpLut(q, x, y);
    assert inv.knee[k] == inv.knee[k..k + 2][0] && inv.knee[k + 1] == inv.knee[k..k + 2][1];
    assert inv.alpha[k] == inv.alpha[k..k + 2][0] && inv.alpha[k + 1] == inv.alpha[k..k + 2][1];
    InsideSegment(v, inv.knee, inv.alpha, k);
  }

  lemma BackStep(q: real, r: real, x0: real, x1: real, y0: real, y1: real)
    requires x0 < x1 && y0 != y1 && q < r
    requires BlendBack(q, x0, x1, y0, y1) == q && BlendBack(r, x0, x1, y0, y1) == r
    ensures x1 - x0 >= EPSILON && (y1 - y0 >= EPSILON || y0 - y1 >= EPSILON)
  {
    hide Blend;
    var m := Max(x1 - x0, EPSILON);
    var v, w := Blend(q, x0, x1, y0, y1), Blend(r, x0, x1, y0, y1);
    var p := BlendStep(q, r, x0, x1, y0, y1);
    ProductOrder(0.0, p, m);
    assert 0.0 * m == 0.0;
    if y0 < y1 {
      var b := BlendStep(v, w, y0, y1, x0, x1);
      StepsCancel(p, b, x1 - x0, m, y1 - y0, Max(y1 - y0, EPSILON));
    } else {
      var b := BlendStep(v, w, y1, y0, x1, x0);
      var n, e, d := Max(y0 - y1, EPSILON), y0 - y1, x1 - x0;
      assert -b * n == -(b * n) && p * e == -(p * (y1 - y0)) && -b * d == b * (x0 - x1);
      StepsCancel(p, -b, d, m, e, n);
    }
  }

  /** Over the whole range the inverse undoes a strictly monotone table exactly when all its gaps are wide. */
  lemma InverseUndoesIffWide(x: Grid, y: Grid)
    requires Monotone(x, y)
    ensures (forall q :: x[0] <= q <= x[|x| - 1] ==> ThereAndBack(q, x, y) == q) <==> WideGaps(x) && WideGaps(y)
  {
    if WideGaps(x) && WideGaps(y) {
      forall q | x[0] <= q <= x[|x| - 1] ensures ThereAndBack(q, x, y) == q {
        InverseUndoes(q, x, y);
      }
    }
    if forall q :: x[0] <= q <= x[|x| - 1] ==> ThereAndBack(q, x, y) == q {
      forall i | 0 <= i < |x| - 1
        ensures x[i + 1] - x[i] >= EPSILON && (y[i + 1] - y[i] >= EPSILON || y[i] - y[i + 1] >= EPSILON)
      {
        GapIsWide(x, y, i);
      }
    }
  }

  lemma GapIsWide(x: Grid, y: Grid, i: nat)
    requires Monotone(x, y) && i + 1 < |x|
    requires forall q :: x[0] <= q <= x[|x| - 1] ==> ThereAndBack(q, x, y) == q
    ensures x[i + 1] - x[i] >= EPSILON && (y[i + 1] - y[i] >= EPSILON || y[i] - y[i + 1] >= EPSILON)
  {
    hide ThereAndBack, BlendBack;
    assert x[0] <= x[i] < x[i + 1] <= x[|x| - 1] && y[i] != y[i + 1];
    var q, r := (2.0 * x[i] + x[i + 1]) / 3.0, (x[i] + 2.0 * x[i + 1]) / 3.0;
    BackInside(q, x, y, i);
    BackInside(r, x, y, i);
    BackStep(q, r, x[i], x[i + 1], y[i], y[i + 1]);
  }
}

/**
 * Moving positions, velocities and torques between policy and output coordinates. Entry 1 and 3 are
 * the left and the right side's second joint; the right side's knee and Jacobian have opposite sign.
 */
module Fourbar {
  import opened Wrappers
  import opened RealArithmetic
  import opened LookupTable

  const ACTIVE_LOWER: real := 0.0
  const ACTIVE_UPPER: real := 1.5095352700498952
  const LUT_SIZE: nat := 8192
  const MIN_DENOMINATOR: real := 0.000001

  datatype Lut = Lut(alpha: Grid, knee: Grid, inverseKnee: Grid, inverseAlpha: Grid, jacobian: Grid)

  datatype Vec4 = Vec4(a: real, b: real, c: real, d: real)

  // ----- building the tables -----

  function AlphaAt(i: nat): real { ACTIVE_LOWER + (ACTIVE_UPPER - ACTIVE_LOWER) * (i as real) / 8191.0 }

  function AlphaGrid(): (g: Grid)
    ensures |g| == LUT_SIZE && forall i :: 0 <= i < LUT_SIZE ==> g[i] == AlphaAt(i)
  {
    seq(LUT_SIZE, i requires 0 <= i => AlphaAt(i))
  }

  function MapGrid(f: real -> real, x: Grid): (g: Grid)
    ensures |g| == |x| && forall i :: 0 <= i < |x| ==> g[i] == f(x[i])
  {
    seq(|x|, i requires 0 <= i < |x| => f(x[i]))
  }

  function Slope(knee: real -> real, alpha: real): real {
    var lo := Clamp(alpha - 0.001, ACTIVE_LOWER, ACTIVE_UPPER);
    var hi := Clamp(alpha + 0.001, ACTIVE_LOWER, ACTIVE_UPPER);
    (knee(hi) - knee(lo)) / Max(hi - lo, 0.000001)
  }

  /** `None` where the code panics because the knee grid is not monotonic. */
  function BuildLut(knee: real -> real): Option<Lut> {
    var alphas := AlphaGrid();
    var knees := MapGrid(knee, alphas);
    match InverseLutGrids(knees, alphas)
    case NotMonotonic => None
    case Inverse(ik, ia) => Some(Lut(alphas, knees, ik, ia, MapGrid(a => Slope(knee, a), alphas)))
  }

  ghost predicate Valid(t: Lut) {
    && Invertible(t.alpha, t.knee)
    && InverseLutGrids(t.knee, t.alpha) == Inverse(t.inverseKnee, t.inverseAlpha)
    && Invertible(t.inverseKnee, t.inverseAlpha)
    && |t.jacobian| == |t.alpha|
    && t.alpha[0] == ACTIVE_LOWER && t.alpha[|t.alpha| - 1] == ACTIVE_UPPER
  }

  lemma AlphaGridWide()
    ensures StrictlyIncreasing(AlphaGrid()) && WideGaps(AlphaGrid())
    ensures AlphaAt(0) == ACTIVE_LOWER && AlphaAt(LUT_SIZE - 1) == ACTIVE_UPPER
  {
  }

  /**
   * The tables can be built exactly when the knee grid rises or falls throughout, equal neighbours
   * included, and are valid exactly when it does so strictly and with wide gaps.
   */
  lemma BuiltTablesValid(knee: real -> real)
    ensures var knees := MapGrid(knee, AlphaGrid());
            && (BuildLut(knee).Some? <==> Rises(knees) || Falls(knees))
            && (BuildLut(knee).Some? && Valid(BuildLut(knee).value) <==>
                  (StrictlyIncreasing(knees) || StrictlyDecreasing(knees)) && WideGaps(knees))
  {
    AlphaGridWide();
    hide AlphaAt, Slope;
    var knees := MapGrid(knee, AlphaGrid());
    if (StrictlyIncreasing(knees) || StrictlyDecreasing(knees)) && WideGaps(knees) {
      InverseGrids(AlphaGrid(), knees);
    }
  }

  // ----- the transforms -----

  function OutputKnee(t: Lut, active: real): real
    requires Valid(t)
  {
    InterpLut(active, t.alpha, t.knee)
  }

  function ActiveAngle(t: Lut, knee: real, right: bool): real
    requires Valid(t)
  {
    InterpLut(if right then -knee else knee, t.inverseKnee, t.inverseAlpha)
  }

  function Jacobian(t: Lut, active: real, right: bool): real
    requires Valid(t)
  {
    var value := InterpLut(active, t.alpha, t.jacobian);
    if right then -value else value
  }

  function SafeDenominator(x: real): real {
    if -MIN_DENOMINATOR < x < MIN_DENOMINATOR then (if x < 0.0 then -MIN_DENOMINATOR else MIN_DENOMINATOR) else x
  }

  /** Active angle speed from the knee's speed. */
  function AlphaDot(kneeVel: real, j: real): real { kneeVel / SafeDenominator(j) }

  function KneeVel(j: real, alphaDot: real): real { j * alphaDot }

  function KneeTorque(torque: real, j: real): real { torque / SafeDenominator(j) }

  function LeftAlpha(p: Vec4): real { Clamp(p.a - p.b, ACTIVE_LOWER, ACTIVE_UPPER) }

  function RightAlpha(p: Vec4): real { Clamp(p.d - p.c, ACTIVE_LOWER, ACTIVE_UPPER) }

  function PolicyToOutputPos(t: Lut, p: Vec4): Vec4
    requires Valid(t)
  {
    Vec4(p.a, OutputKnee(t, LeftAlpha(p)), p.c, -OutputKnee(t, RightAlpha(p)))
  }

  function OutputToPolicyPos(t: Lut, o: Vec4): Vec4
    requires Valid(t)
  {
    Vec4(o.a, o.a - ActiveAngle(t, o.b, false), o.c, o.c + ActiveAngle(t, o.d, true))
  }

  function OutputToPolicyVel(t: Lut, o: Vec4, v: Vec4): Vec4
    requires Valid(t)
  {
    var leftJ := Jacobian(t, ActiveAngle(t, o.b, false), false);
    var rightJ := Jacobian(t, ActiveAngle(t, o.d, true), true);
    Vec4(v.a, v.a - AlphaDot(v.b, leftJ), v.c, v.c + AlphaDot(v.d, rightJ))
  }

  function PolicyToOutputVel(t: Lut, p: Vec4, v: Vec4): Vec4
    requires Valid(t)
  {
    var leftJ, rightJ := Jacobian(t, LeftAlpha(p), false), Jacobian(t, RightAlpha(p), true);
    Vec4(v.a, KneeVel(leftJ, v.a - v.b), v.c, KneeVel(rightJ, v.d - v.c))
  }

  function PolicyToOutputTorque(t: Lut, p: Vec4, torque: Vec4): Vec4
    requires Valid(t)
  {
    var leftJ, rightJ := Jacobian(t, LeftAlpha(p), false), Jacobian(t, RightAlpha(p), true);
    Vec4(torque.a + torque.b, KneeTorque(-torque.b, leftJ), torque.c + torque.d, KneeTorque(torque.d, rightJ))
  }

  // ----- positions -----

  predicate WithinLimits(p: Vec4) {
    ACTIVE_LOWER <= p.a - p.b <= ACTIVE_UPPER && ACTIVE_LOWER <= p.d - p.c <= ACTIVE_UPPER
  }

  function KneeLow(t: Lut): real
    requires Valid(t)
  {
    t.inverseKnee[0]
  }

  function KneeHigh(t: Lut): real
    requires Valid(t)
  {
    t.inverseKnee[|t.inverseKnee| - 1]
  }

  predicate KneesReachable(t: Lut, o: Vec4)
    requires Valid(t)
  {
    KneeLow(t) <= o.b <= KneeHigh(t) && KneeLow(t) <= -o.d <= KneeHigh(t)
  }

  /** The angle read back from a knee position is the angle that position was computed from. */
  lemma AngleReadBack(t: Lut, p: Vec4)
    requires Valid(t)
    ensures var o := PolicyToOutputPos(t, p);
            ActiveAngle(t, o.b, false) == LeftAlpha(p) && ActiveAngle(t, o.d, true) == RightAlpha(p)
  {
    hide InterpLut, Invertible, InverseLutGrids;
    InverseUndoes(LeftAlpha(p), t.alpha, t.knee);
    InverseUndoes(RightAlpha(p), t.alpha, t.knee);
  }

  /** Policy to output and back is the identity exactly on positions inside the limits. */
  lemma PolicyPosRoundTrip(t: Lut, p: Vec4)
    requires Valid(t)
    ensures OutputToPolicyPos(t, PolicyToOutputPos(t, p)) == p <==> WithinLimits(p)
  {
    hide Valid, OutputKnee, ActiveAngle;
    AngleReadBack(t, p);
  }

  /** Output to policy and back is the identity exactly on knee positions the table reaches. */
  lemma OutputPosRoundTrip(t: Lut, o: Vec4)
    requires Valid(t)
    ensures PolicyToOutputPos(t, OutputToPolicyPos(t, o)) == o <==> KneesReachable(t, o)
  {
    hide Valid, OutputKnee, ActiveAngle, KneeLow, KneeHigh;
    KneeReadBack(t, o.b, false);
    KneeReadBack(t, o.d, true);
  }

  lemma KneeReadBack(t: Lut, knee: real, right: bool)
    requires Valid(t)
    ensures ACTIVE_LOWER <= ActiveAngle(t, knee, right) <= ACTIVE_UPPER
    ensures OutputKnee(t, ActiveAngle(t, knee, right)) ==
            Clamp(if right then -knee else knee, KneeLow(t), KneeHigh(t))
    ensures KneeLow(t) <= KneeHigh(t)
  {
    var q := if right then -knee else knee;
    ForwardUndoesInverse(q, t.alpha, t.knee);
    InterpInRange(q, t.inverseKnee, t.inverseAlpha);
    InverseEnds(t.alpha, t.knee);
    assert KneeLow(t) <= KneeHigh(t);
    hide InterpLut, Invertible, InverseLutGrids;
  }

  lemma InverseEnds(x: Grid, y: Grid)
    requires Invertible(x, y)
    ensures var inv := InverseLutGrids(y, x); var n := |x| - 1;
            && inv.Inverse? && |inv.alpha| == |inv.knee| == |x| && x[0] < x[n]
            && (StrictlyIncreasing(inv.alpha) ==> inv.alpha[0] == x[0] && inv.alpha[n] == x[n])
            && (!StrictlyIncreasing(inv.alpha) ==> inv.alpha[0] == x[n] && inv.alpha[n] == x[0])
  {
    InverseGrids(x, y);
    hide InverseLutGrids, WideGaps;
    var r := Reverse(x);
    assert r[0] == x[|x| - 1] && r[|x| - 1] == x[0];
  }

  // ----- velocities -----

  predicate Regular(j: real) { j >= MIN_DENOMINATOR || j <= -MIN_DENOMINATOR }

  lemma OneSide(j: real, x: real)
    ensures AlphaDot(KneeVel(j, x), j) == x <==> Regular(j) || x == 0.0
  {
    var s := SafeDenominator(j);
    hide SafeDenominator;
    assert s != 0.0 && (Regular(j) <==> s == j) by {
      SafeIsRegular(j);
    }
    Quotient(j * x, s);
    var q := (j * x) / s;
    if s == j {
      DivideBack(x, s, j * x);
    } else if x == 0.0 {
      DivideBack(0.0, s, j * x);
    } else {
      assert q == x ==> s * x == j * x;
      CancelUnless(s, j, x);
    }
  }

  lemma CancelUnless(a: real, b: real, d: real)
    requires a != b && d != 0.0
    ensures a * d != b * d
  {
    if a * d == b * d {
      Cancel(a, b, d);
    }
  }

  lemma SafeIsRegular(j: real)
    ensures SafeDenominator(j) != 0.0 && (Regular(j) <==> SafeDenominator(j) == j)
  {
  }

  /** Each side's velocity is recovered exactly when its Jacobian is regular or its active angle rests. */
  lemma VelocityRoundTrip(t: Lut, p: Vec4, v: Vec4)
    requires Valid(t)
    ensures OutputToPolicyVel(t, PolicyToOutputPos(t, p), PolicyToOutputVel(t, p, v)) == v <==>
            && (Regular(Jacobian(t, LeftAlpha(p), false)) || v.a == v.b)
            && (Regular(Jacobian(t, RightAlpha(p), true)) || v.d == v.c)
  {
    hide Valid, Jacobian, Regular, ActiveAngle, PolicyToOutputPos, LeftAlpha, RightAlpha, AlphaDot, KneeVel;
    AngleReadBack(t, p);
    var j, k := Jacobian(t, LeftAlpha(p), false), Jacobian(t, RightAlpha(p), true);
    OneSide(j, v.a - v.b);
    OneSide(k, v.d - v.c);
  }

  // ----- what the Jacobian has to do with the positions -----

  /** How far the Jacobian at an angle reaches: half a difference and one grid step. */
  const REACH: real := 0.0012

  /** Between two angles, as far as the limits go, the knee's secant slopes lie between lo and hi. */
  ghost predicate SecantsWithin(knee: real -> real, from: real, to: real, lo: real, hi: real) {
    forall a, b :: ACTIVE_LOWER <= a <= b <= ACTIVE_UPPER && from <= a && b <= to ==>
      Times(lo, b - a) <= knee(b) - knee(a) <= Times(hi, b - a)
  }

  lemma NarrowSecants(knee: real -> real, from: real, to: real, from': real, to': real, lo: real, hi: real)
    requires SecantsWithin(knee, from, to, lo, hi)
    requires (from <= from' || from <= ACTIVE_LOWER) && (to' <= to || ACTIVE_UPPER <= to)
    ensures SecantsWithin(knee, from', to', lo, hi)
  {
    hide Times;
  }

  lemma GridInLimits(i: nat)
    requires i < LUT_SIZE
    ensures ACTIVE_LOWER <= AlphaGrid()[i] <= ACTIVE_UPPER
  {
    AlphaGridWide();
    hide AlphaAt;
    assert AlphaGrid()[0] <= AlphaGrid()[i] <= AlphaGrid()[LUT_SIZE - 1];
  }

  lemma BuiltTables(knee: real -> real, t: Lut)
    requires BuildLut(knee) == Some(t)
    ensures t.alpha == AlphaGrid() && |t.alpha| == |t.knee| == |t.jacobian| == LUT_SIZE
    ensures forall i :: 0 <= i < LUT_SIZE ==> t.knee[i] == knee(t.alpha[i]) && t.jacobian[i] == Slope(knee, t.alpha[i])
  {
    hide AlphaAt, Slope, InverseLutGrids;
  }

  lemma SlopeStep(alpha: real) returns (lo: real, hi: real)
    requires ACTIVE_LOWER <= alpha <= ACTIVE_UPPER
    ensures ACTIVE_LOWER <= lo <= ACTIVE_UPPER && ACTIVE_LOWER <= hi <= ACTIVE_UPPER && hi - lo >= 0.001
    ensures alpha - 0.001 <= lo <= alpha <= hi <= alpha + 0.001
    ensures forall knee: real -> real :: Slope(knee, alpha) == (knee(hi) - knee(lo)) / (hi - lo)
  {
    lo, hi := Clamp(alpha - 0.001, ACTIVE_LOWER, ACTIVE_UPPER), Clamp(alpha + 0.001, ACTIVE_LOWER, ACTIVE_UPPER);
  }

  /** Any bounds of the table bound the Jacobian; on the right with opposite sign. */
  lemma JacobianBetween(t: Lut, active: real, lo: real, hi: real)
    requires Valid(t) && forall i :: 0 <= i < |t.jacobian| ==> lo <= t.jacobian[i] <= hi
    ensures lo <= Jacobian(t, active, false) <= hi && -hi <= Jacobian(t, active, true) <= -lo
  {
    hide WideGaps, InterpLut, InverseLutGrids;
    InterpWithin(active, t.alpha, t.jacobian, lo, hi);
  }

  lemma SecantAt(knee: real -> real, from: real, to: real, lo: real, hi: real, a: real, b: real)
    requires SecantsWithin(knee, from, to, lo, hi)
    requires ACTIVE_LOWER <= a <= b <= ACTIVE_UPPER && from <= a && b <= to
    ensures Times(lo, b - a) <= knee(b) - knee(a) <= Times(hi, b - a)
  {
  }

  /** A difference quotient is one of the secant slopes within 0.001 of its angle. */
  lemma SlopeWithin(knee: real -> real, from: real, to: real, lo: real, hi: real, alpha: real)
    requires SecantsWithin(knee, from, to, lo, hi) && ACTIVE_LOWER <= alpha <= ACTIVE_UPPER
    requires from <= alpha - 0.001 && alpha + 0.001 <= to
    ensures lo <= Slope(knee, alpha) <= hi
  {
    hide Slope, Times, SecantsWithin;
    var l, h := SlopeStep(alpha);
    SecantAt(knee, from, to, lo, hi, l, h);
    QuotientWithin(knee(h) - knee(l), h - l, lo, hi);
  }

  lemma GridStep(i: nat)
    requires i + 1 < LUT_SIZE
    ensures AlphaGrid()[i] < AlphaGrid()[i + 1] <= AlphaGrid()[i] + 0.0002
  {
    assert AlphaAt(i + 1) - AlphaAt(i) == (ACTIVE_UPPER - ACTIVE_LOWER) / 8191.0;
  }

  /**
   * The Jacobian at an angle lies between the bounds of the knee's secant slopes within 0.0012 of
   * that angle; on the right with opposite sign. Beyond the limits it is the one at the limit.
   */
  lemma JacobianWithin(knee: real -> real, t: Lut, active: real, lo: real, hi: real)
    requires BuildLut(knee) == Some(t) && Valid(t)
    requires var a := Clamp(active, ACTIVE_LOWER, ACTIVE_UPPER); SecantsWithin(knee, a - REACH, a + REACH, lo, hi)
    ensures lo <= Jacobian(t, active, false) <= hi && -hi <= Jacobian(t, active, true) <= -lo
  {
    hide BuildLut, Slope, AlphaAt, WideGaps, InterpLut, InverseLutGrids, AlphaGrid, MapGrid, SecantsWithin,
      StrictlyDecreasing;
    BuiltTables(knee, t);
    InterpClamps(active, t.alpha, t.jacobian);
    var a := Clamp(active, ACTIVE_LOWER, ACTIVE_UPPER);
    var i := SegmentOf(a, t.alpha);
    GridStep(i);
    GridInLimits(i);
    GridInLimits(i + 1);
    SlopeWithin(knee, a - REACH, a + REACH, lo, hi, t.alpha[i]);
    SlopeWithin(knee, a - REACH, a + REACH, lo, hi, t.alpha[i + 1]);
    InterpBetween(a, t.alpha, t.jacobian, i, lo, hi);
  }

  lemma QuotientWithin(a: real, d: real, lo: real, hi: real)
    requires d > 0.0 && Times(lo, d) <= a <= Times(hi, d)
    ensures lo <= a / d <= hi
  {
    Quotient(a, d);
    ProductOrder(a / d, lo, d);
    ProductOrder(hi, a / d, d);
  }

  ghost predicate KneeRises(knee: real -> real) {
    forall a, b :: ACTIVE_LOWER <= a <= b <= ACTIVE_UPPER ==> knee(a) <= knee(b)
  }

  ghost predicate KneeFalls(knee: real -> real) {
    forall a, b :: ACTIVE_LOWER <= a <= b <= ACTIVE_UPPER ==> knee(a) >= knee(b)
  }

  lemma SlopeSign(knee: real -> real, alpha: real)
    requires ACTIVE_LOWER <= alpha <= ACTIVE_UPPER
    ensures KneeRises(knee) ==> Slope(knee, alpha) >= 0.0
    ensures KneeFalls(knee) ==> Slope(knee, alpha) <= 0.0
  {
    hide Slope;
    var l, h := SlopeStep(alpha);
    QuotientSigns(knee(h) - knee(l), h - l);
  }

  lemma QuotientSigns(k: real, d: real)
    requires d > 0.0
    ensures (k >= 0.0 ==> k / d >= 0.0) && (k <= 0.0 ==> k / d <= 0.0)
  {
    if k >= 0.0 {
      QuotientSign(k, d);
    }
    if k <= 0.0 {
      QuotientSign(-k, d);
      assert -k / d == -(k / d);
    }
  }

  /**
   * A knee that rises with the active angle has a left Jacobian of at least 0 and a right one of at
   * most 0; for one that falls it is the other way round.
   */
  lemma JacobianSign(knee: real -> real, t: Lut, active: real)
    requires BuildLut(knee) == Some(t) && Valid(t)
    ensures KneeRises(knee) ==> Jacobian(t, active, false) >= 0.0 && Jacobian(t, active, true) <= 0.0
    ensures KneeFalls(knee) ==> Jacobian(t, active, false) <= 0.0 && Jacobian(t, active, true) >= 0.0
  {
    hide *;
    BuiltTables(knee, t);
    var lo, hi := Bounds(t.jacobian);
    forall i | 0 <= i < |t.jacobian|
      ensures (KneeRises(knee) ==> t.jacobian[i] >= 0.0) && (KneeFalls(knee) ==> t.jacobian[i] <= 0.0)
    {
      GridInLimits(i);
      SlopeSign(knee, t.alpha[i]);
    }
    if KneeRises(knee) {
      JacobianBetween(t, active, 0.0, hi);
    }
    if KneeFalls(knee) {
      JacobianBetween(t, active, lo, 0.0);
    }
  }

  lemma Bounds(x: Grid) returns (lo: real, hi: real)
    ensures forall i :: 0 <= i < |x| ==> lo <= x[i] <= hi
  {
    lo, hi := 0.0, 0.0;
    for k := 0 to |x|
      invariant lo <= hi && forall i :: 0 <= i < k ==> lo <= x[i] <= hi
    {
      if hi < x[k] {
        hi := x[k];
      }
      if x[k] < lo {
        lo := x[k];
      }
    }
  }

  lemma GridOrder(i: nat, j: nat)
    requires i <= j < LUT_SIZE
    ensures AlphaGrid()[i] <= AlphaGrid()[j]
  {
    AlphaGridWide();
    hide AlphaAt;
  }

  lemma TableSlope(knee: real -> real, from: real, to: real, lo: real, hi: real, first: nat, i: nat, last: nat)
    requires SecantsWithin(knee, from, to, lo, hi)
    requires first <= i <= last && last + 1 < LUT_SIZE && from <= AlphaGrid()[first] && AlphaGrid()[last + 1] <= to
    ensures var a, b := AlphaGrid()[i], AlphaGrid()[i + 1];
            Times(lo, b - a) <= knee(b) - knee(a) <= Times(hi, b - a)
  {
    hide AlphaGrid, AlphaAt, Times, SecantsWithin;
    GridInLimits(i);
    GridInLimits(i + 1);
    GridOrder(first, i);
    GridOrder(i, i + 1);
    GridOrder(i + 1, last + 1);
    SecantAt(knee, from, to, lo, hi, AlphaGrid()[i], AlphaGrid()[i + 1]);
  }

  lemma TableSlopes(knee: real -> real, t: Lut, from: real, to: real, lo: real, hi: real, first: nat, last: nat)
    requires BuildLut(knee) == Some(t) && SecantsWithin(knee, from, to, lo, hi)
    requires first <= last && last + 1 < LUT_SIZE && from <= AlphaGrid()[first] && AlphaGrid()[last + 1] <= to
    ensures t.alpha == AlphaGrid() && |t.alpha| == |t.knee| == LUT_SIZE
    ensures SlopesWithin(t.alpha, t.knee, first, last, lo, hi)
  {
    hide BuildLut, Slope, AlphaAt, AlphaGrid, Times, SecantsWithin;
    BuiltTables(knee, t);
    forall i | first <= i <= last
      ensures Times(lo, t.alpha[i + 1] - t.alpha[i]) <= t.knee[i + 1] - t.knee[i]
      ensures t.knee[i + 1] - t.knee[i] <= Times(hi, t.alpha[i + 1] - t.alpha[i])
    {
      TableSlope(knee, from, to, lo, hi, first, i, last);
    }
  }

  /** Between two angles the table's knee moves at slopes the linkage itself has near them. */
  lemma KneeSecant(knee: real -> real, t: Lut, lo: real, hi: real, a: real, b: real)
    requires BuildLut(knee) == Some(t) && Valid(t) && SecantsWithin(knee, a - REACH, b + REACH, lo, hi)
    requires ACTIVE_LOWER <= a <= b <= ACTIVE_UPPER
    ensures Times(lo, b - a) <= OutputKnee(t, b) - OutputKnee(t, a) <= Times(hi, b - a)
  {
    hide BuildLut, WideGaps, InterpLut, InverseLutGrids, AlphaGrid, Times, SecantsWithin, SlopesWithin,
      StrictlyIncreasing;
    BuiltTables(knee, t);
    var i := SegmentOf(a, t.alpha);
    var k := SegmentFrom(b, t.alpha, i);
    GridStep(i);
    GridStep(k);
    TableSlopes(knee, t, a - REACH, b + REACH, lo, hi, i, k);
    SecantBetween(a, b, t.alpha, t.knee, i, k, lo, hi);
  }

  /** Between the knots the table's knee differs from the linkage's by at most a grid step times the slopes' spread. */
  lemma KneeNearLinkage(knee: real -> real, t: Lut, lo: real, hi: real, a: real)
    requires BuildLut(knee) == Some(t) && Valid(t) && SecantsWithin(knee, a - REACH, a + REACH, lo, hi)
    requires ACTIVE_LOWER <= a <= ACTIVE_UPPER
    ensures Abs(OutputKnee(t, a) - knee(a)) <= Times(hi - lo, 0.0002)
  {
    hide BuildLut, WideGaps, InterpLut, InverseLutGrids, AlphaGrid, Times, SecantsWithin, SlopesWithin,
      StrictlyIncreasing;
    BuiltTables(knee, t);
    var i := SegmentOf(a, t.alpha);
    GridStep(i);
    GridInLimits(i);
    GridInLimits(i + 1);
    TableSlopes(knee, t, a - REACH, a + REACH, lo, hi, i, i);
    SecantBetween(t.alpha[i], a, t.alpha, t.knee, i, i, lo, hi);
    AtKnot(t.alpha, t.knee, i);
    SecantAt(knee, a - REACH, a + REACH, lo, hi, t.alpha[i], a);
    SecantAt(knee, a - REACH, a + REACH, lo, hi, t.alpha[i], t.alpha[i + 1]);
    Spread(lo, hi, t.alpha[i + 1] - t.alpha[i], a - t.alpha[i]);
  }

  lemma Spread(lo: real, hi: real, d: real, e: real)
    requires 0.0 < d <= 0.0002 && Times(lo, d) <= Times(hi, d) && 0.0 <= e <= d
    ensures Times(hi, e) - Times(lo, e) <= Times(hi - lo, 0.0002)
  {
    assert (hi - lo) * d >= 0.0;
    assert hi >= lo by {
      if hi < lo {
        PositiveProduct(lo - hi, d);
      }
    }
    ProductBound(hi - lo, e, hi - lo, 0.0002);
  }

  /** A later query has a segment no earlier. */
  lemma SegmentFrom(q: real, x: Grid, from: nat) returns (i: nat)
    requires from + 1 < |x| && StrictlyIncreasing(x) && x[from] <= q <= x[|x| - 1]
    ensures from <= i && i + 1 < |x| && x[i] <= q <= x[i + 1]
  {
    i := from;
    while x[i + 1] < q
      invariant from <= i && i + 1 < |x| && x[i] <= q
      decreases |x| - i
    {
      i := i + 1;
    }
  }

  function Step(x: real, h: real, v: real): real { x + h * v }

  function Moved(p: Vec4, h: real, v: Vec4): Vec4 {
    Vec4(Step(p.a, h, v.a), Step(p.b, h, v.b), Step(p.c, h, v.c), Step(p.d, h, v.d))
  }

  lemma AlphaStep(i: nat, j: nat)
    requires i < j
    ensures AlphaAt(j) - AlphaAt(i) >= 0.0001
  {
    assert AlphaAt(j) - AlphaAt(i) == (ACTIVE_UPPER - ACTIVE_LOWER) / 8191.0 * ((j - i) as real);
  }

  /** Every linkage whose secant slopes keep away from zero has valid tables. */
  lemma SecantsBuild(knee: real -> real, lo: real, hi: real)
    requires SecantsWithin(knee, ACTIVE_LOWER, ACTIVE_UPPER, lo, hi)
    requires lo >= MIN_DENOMINATOR || hi <= -MIN_DENOMINATOR
    ensures BuildLut(knee).Some? && Valid(BuildLut(knee).value)
  {
    hide AlphaAt, BuildLut, Valid, Times;
    var alphas, knees := AlphaGrid(), MapGrid(knee, AlphaGrid());
    forall i, j | 0 <= i < j < LUT_SIZE
      ensures lo >= MIN_DENOMINATOR ==> knees[j] - knees[i] >= EPSILON
      ensures hi <= -MIN_DENOMINATOR ==> knees[i] - knees[j] >= EPSILON
    {
      GridInLimits(i);
      GridInLimits(j);
      AlphaStep(i, j);
      assert alphas[i] == AlphaAt(i) && alphas[j] == AlphaAt(j);
      SteepStep(lo, alphas[j] - alphas[i]);
      SteepStep(hi, alphas[j] - alphas[i]);
    }
    BuiltTablesValid(knee);
  }

  lemma SteepStep(m: real, d: real)
    requires d >= 0.0001
    ensures m >= MIN_DENOMINATOR ==> Times(m, d) >= EPSILON
    ensures m <= -MIN_DENOMINATOR ==> Times(m, d) <= -EPSILON
  {
    if Regular(m) {
      ProductBound(MIN_DENOMINATOR, 0.0001, if m >= 0.0 then m else -m, d);
      assert -m * d == -(m * d);
    }
  }

  function Abs(x: real): real { if x < 0.0 then -x else x }

  /** Two slopes within the same bounds, over the same step of either sign, differ by at most the bounds' difference. */
  lemma SlopeError(lo: real, hi: real, j: real, d: real, k: real)
    requires lo <= j <= hi
    requires if d >= 0.0 then Times(lo, d) <= k <= Times(hi, d) else Times(hi, d) <= k <= Times(lo, d)
    ensures Abs(k - Times(j, d)) <= Times(hi - lo, Abs(d))
  {
    hide Times;
    var e := Abs(d);
    TimesOrder(lo, j, e);
    TimesOrder(j, hi, e);
    TimesOrder(lo, hi, e);
    if d < 0.0 {
      TimesNegated(lo, d);
      TimesNegated(j, d);
      TimesNegated(hi, d);
    }
  }

  /** Times is monotone and linear in the slope. */
  lemma TimesOrder(m: real, n: real, d: real)
    requires m <= n && d >= 0.0
    ensures Times(m, d) <= Times(n, d) && Times(n - m, d) == Times(n, d) - Times(m, d)
  {
    var e := n - m;
    assert n * d == m * d + e * d;
    ProductBound(0.0, 0.0, e, d);
  }

  /** The secant slopes near the way from one angle to the other. */
  ghost predicate SecantsAround(knee: real -> real, a: real, b: real, lo: real, hi: real) {
    SecantsWithin(knee, (if a < b then a else b) - REACH, (if a < b then b else a) + REACH, lo, hi)
  }

  lemma KneeError(knee: real -> real, t: Lut, lo: real, hi: real, a: real, b: real)
    requires BuildLut(knee) == Some(t) && Valid(t) && SecantsAround(knee, a, b, lo, hi)
    requires ACTIVE_LOWER <= a <= ACTIVE_UPPER && ACTIVE_LOWER <= b <= ACTIVE_UPPER
    ensures Abs(OutputKnee(t, b) - OutputKnee(t, a) - Times(Jacobian(t, a, false), b - a)) <= Times(hi - lo, Abs(b - a))
    ensures Jacobian(t, a, true) == -Jacobian(t, a, false)
  {
    hide BuildLut, Valid, OutputKnee, SecantsWithin, Times, Jacobian;
    var from, to := (if a < b then a else b) - REACH, (if a < b then b else a) + REACH;
    NarrowSecants(knee, from, to, a - REACH, a + REACH, lo, hi);
    JacobianWithin(knee, t, a, lo, hi);
    JacobianSides(t, a);
    if a <= b {
      KneeSecant(knee, t, lo, hi, a, b);
    } else {
      KneeSecant(knee, t, lo, hi, b, a);
      TimesNegated(lo, b - a);
      TimesNegated(hi, b - a);
    }
    SlopeError(lo, hi, Jacobian(t, a, false), b - a, OutputKnee(t, b) - OutputKnee(t, a));
  }

  lemma JacobianSides(t: Lut, active: real)
    requires Valid(t)
    ensures Jacobian(t, active, true) == -Jacobian(t, active, false)
  {
  }

  lemma TimesNegated(m: real, d: real)
    ensures Times(m, -d) == -Times(m, d) && Times(-m, d) == -Times(m, d)
  {
  }

  lemma StepDifference(x: real, y: real, h: real, v: real, w: real)
    ensures Step(x, h, v) - Step(y, h, w) == Step(x - y, h, v - w)
  {
    assert h * (v - w) == h * v - h * w;
  }

  lemma StepIsTimes(j: real, h: real, w: real, x: real)
    ensures Step(x, h, KneeVel(j, w)) == x + Times(j, Times(h, w))
  {
    assert h * (j * w) == j * (h * w);
  }

  /**
   * The velocity transform is the derivative of the position transform up to the local spread of
   * the knee's secant slopes: if those near the way of a side's active angle lie between two bounds,
   * then over a step of h that side's output moves as the velocity says, up to the bounds' distance
   * times the step of the angle. The hips move exactly.
   */
  lemma VelocityIsDerivative(knee: real -> real, t: Lut, p: Vec4, h: real, v: Vec4,
                             leftLo: real, leftHi: real, rightLo: real, rightHi: real)
    requires BuildLut(knee) == Some(t) && Valid(t)
    requires WithinLimits(p) && WithinLimits(Moved(p, h, v))
    requires var p' := Moved(p, h, v);
             && SecantsAround(knee, p.a - p.b, p'.a - p'.b, leftLo, leftHi)
             && SecantsAround(knee, p.d - p.c, p'.d - p'.c, rightLo, rightHi)
    ensures var change := PolicyToOutputPos(t, Moved(p, h, v));
            var linear := Moved(PolicyToOutputPos(t, p), h, PolicyToOutputVel(t, p, v));
            && change.a == linear.a && change.c == linear.c
            && Abs(change.b - linear.b) <= Times(leftHi - leftLo, Abs(Times(h, v.a - v.b)))
            && Abs(change.d - linear.d) <= Times(rightHi - rightLo, Abs(Times(h, v.d - v.c)))
  {
    hide Valid, BuildLut, OutputKnee, Jacobian, KneeVel, Step, Times, SecantsAround;
    var p' := Moved(p, h, v);
    StepDifference(p.a, p.b, h, v.a, v.b);
    StepDifference(p.d, p.c, h, v.d, v.c);
    StepAngle(p.a - p.b, h, v.a - v.b);
    StepAngle(p.d - p.c, h, v.d - v.c);
    KneeError(knee, t, leftLo, leftHi, p.a - p.b, p'.a - p'.b);
    KneeError(knee, t, rightLo, rightHi, p.d - p.c, p'.d - p'.c);
    var j, k := Jacobian(t, p.a - p.b, false), Jacobian(t, p.d - p.c, true);
    StepIsTimes(j, h, v.a - v.b, OutputKnee(t, p.a - p.b));
    StepIsTimes(k, h, v.d - v.c, -OutputKnee(t, p.d - p.c));
    TimesNegated(-k, Times(h, v.d - v.c));
  }

  lemma StepAngle(x: real, h: real, v: real)
    ensures Step(x, h, v) - x == Times(h, v)
  {
  }

  /** On an affine linkage, all of whose secants have one slope, it is the exact derivative. */
  lemma VelocityExactOnAffine(knee: real -> real, m: real, t: Lut, p: Vec4, h: real, v: Vec4)
    requires BuildLut(knee) == Some(t) && Valid(t) && SecantsWithin(knee, ACTIVE_LOWER, ACTIVE_UPPER, m, m)
    requires WithinLimits(p) && WithinLimits(Moved(p, h, v))
    ensures PolicyToOutputPos(t, Moved(p, h, v)) == Moved(PolicyToOutputPos(t, p), h, PolicyToOutputVel(t, p, v))
  {
    hide Valid, BuildLut, SecantsWithin, PolicyToOutputPos, PolicyToOutputVel, Moved, WithinLimits;
    var p' := Moved(p, h, v);
    AllAround(knee, m, p.a - p.b, p'.a - p'.b);
    AllAround(knee, m, p.d - p.c, p'.d - p'.c);
    VelocityIsDerivative(knee, t, p, h, v, m, m, m, m);
  }

  lemma AllAround(knee: real -> real, m: real, a: real, b: real)
    requires SecantsWithin(knee, ACTIVE_LOWER, ACTIVE_UPPER, m, m)
    ensures SecantsAround(knee, a, b, m, m)
  {
    hide SecantsWithin;
    NarrowSecants(knee, ACTIVE_LOWER, ACTIVE_UPPER, (if a < b then a else b) - REACH, (if a < b then b else a) + REACH,
                  m, m);
  }

  /** The divisor keeps its sign and its size, except that it is never smaller than 1e-6. */
  lemma SafeDenominatorKeeps(x: real)
    ensures var s := SafeDenominator(x);
            && (x < 0.0 <==> s < 0.0) && Abs(s) == if Abs(x) < 0.000001 then 0.000001 else Abs(x)
  {
  }

  // ----- power -----

  function Dot(v: Vec4, w: Vec4): real { v.a * w.a + v.b * w.b + v.c * w.c + v.d * w.d }

  /** The part of a side's power that goes missing when its Jacobian is not regular. */
  function Loss(j: real, power: real): real {
    (1.0 - j / SafeDenominator(j)) * power
  }

  lemma LossIsNothing(j: real, power: real)
    ensures Regular(j) ==> Loss(j, power) == 0.0
    ensures !Regular(j) && power == 1.0 ==> Loss(j, power) != 0.0
  {
  }

  /** The power at a knee whose policy torque is x and whose active angle turns at y. */
  function KneePower(x: real, j: real, y: real): real { KneeTorque(x, j) * KneeVel(j, y) }

  function HipPower(torque: Vec4, v: Vec4): real { (torque.a + torque.b) * v.a + (torque.c + torque.d) * v.c }

  lemma SidePower(x: real, j: real, y: real, z: real)
    requires z == x * y
    ensures KneePower(x, j, y) == z - Loss(j, z)
  {
  }

  /** The power the policy puts into the left and the right active angle. */
  function LeftPower(torque: Vec4, v: Vec4): real { -torque.b * (v.a - v.b) }

  function RightPower(torque: Vec4, v: Vec4): real { torque.d * (v.d - v.c) }

  /** The power identity behind the torque map. */
  lemma PowerSum(torque: Vec4, v: Vec4)
    ensures HipPower(torque, v) + LeftPower(torque, v) + RightPower(torque, v) == Dot(torque, v)
  {
  }

  lemma OutputPower(t: Lut, p: Vec4, torque: Vec4, v: Vec4)
    requires Valid(t)
    ensures var j, k := Jacobian(t, LeftAlpha(p), false), Jacobian(t, RightAlpha(p), true);
            Dot(PolicyToOutputTorque(t, p, torque), PolicyToOutputVel(t, p, v)) ==
            HipPower(torque, v)
            + LeftPower(torque, v) - Loss(j, LeftPower(torque, v))
            + RightPower(torque, v) - Loss(k, RightPower(torque, v))
  {
    hide Valid, Jacobian, LeftAlpha, RightAlpha, KneeTorque, KneeVel, Loss;
    SidePower(-torque.b, Jacobian(t, LeftAlpha(p), false), v.a - v.b, LeftPower(torque, v));
    SidePower(torque.d, Jacobian(t, RightAlpha(p), true), v.d - v.c, RightPower(torque, v));
    hide LeftPower, RightPower;
  }

  /** What the transforms do to mechanical power: each side passes its power on but for its loss. */
  lemma PowerBalance(t: Lut, p: Vec4, torque: Vec4, v: Vec4)
    requires Valid(t)
    ensures var j, k := Jacobian(t, LeftAlpha(p), false), Jacobian(t, RightAlpha(p), true);
            Dot(PolicyToOutputTorque(t, p, torque), PolicyToOutputVel(t, p, v)) ==
            Dot(torque, v) - Loss(j, LeftPower(torque, v)) - Loss(k, RightPower(torque, v))
  {
    hide *;
    PowerSum(torque, v);
    OutputPower(t, p, torque, v);
  }

  lemma UnitPower(torque: Vec4, v: Vec4, x: real, y: real)
    requires v.a - v.b == 1.0 && v.d - v.c == 1.0 && torque.b == -x && torque.d == y
    ensures LeftPower(torque, v) == x && RightPower(torque, v) == y
  {
    assert -torque.b * 1.0 == x && torque.d * 1.0 == y;
  }

  lemma RegularConserves(t: Lut, p: Vec4, torque: Vec4, v: Vec4)
    requires Valid(t)
    requires Regular(Jacobian(t, LeftAlpha(p), false)) && Regular(Jacobian(t, RightAlpha(p), true))
    ensures Dot(PolicyToOutputTorque(t, p, torque), PolicyToOutputVel(t, p, v)) == Dot(torque, v)
  {
    hide *;
    PowerBalance(t, p, torque, v);
    LossIsNothing(Jacobian(t, LeftAlpha(p), false), LeftPower(torque, v));
    LossIsNothing(Jacobian(t, RightAlpha(p), true), RightPower(torque, v));
  }

  /** A unit of power through one side alone arrives exactly when that side's Jacobian is regular. */
  lemma UnitArrives(t: Lut, p: Vec4, torque: Vec4, v: Vec4, left: bool)
    requires Valid(t)
    requires LeftPower(torque, v) == (if left then 1.0 else 0.0) && RightPower(torque, v) == if left then 0.0 else 1.0
    ensures Dot(PolicyToOutputTorque(t, p, torque), PolicyToOutputVel(t, p, v)) == Dot(torque, v) <==>
            Regular(if left then Jacobian(t, LeftAlpha(p), false) else Jacobian(t, RightAlpha(p), true))
  {
    hide *;
    var j, k := Jacobian(t, LeftAlpha(p), false), Jacobian(t, RightAlpha(p), true);
    PowerBalance(t, p, torque, v);
    LossIsNothing(j, 1.0);
    LossIsNothing(k, 1.0);
    LossOfZero(j);
    LossOfZero(k);
  }

  /** Power is conserved for all torques and velocities exactly when both Jacobians are regular. */
  lemma PowerConserved(t: Lut, p: Vec4)
    requires Valid(t)
    ensures (forall torque: Vec4, v: Vec4 ::
               Dot(PolicyToOutputTorque(t, p, torque), PolicyToOutputVel(t, p, v)) == Dot(torque, v))
            <==> Regular(Jacobian(t, LeftAlpha(p), false)) && Regular(Jacobian(t, RightAlpha(p), true))
  {
    hide *;
    if Regular(Jacobian(t, LeftAlpha(p), false)) && Regular(Jacobian(t, RightAlpha(p), true)) {
      forall torque: Vec4, v: Vec4
        ensures Dot(PolicyToOutputTorque(t, p, torque), PolicyToOutputVel(t, p, v)) == Dot(torque, v)
      {
        RegularConserves(t, p, torque, v);
      }
    }
    var left, right, one := Vec4(0.0, -1.0, 0.0, 0.0), Vec4(0.0, 0.0, 0.0, 1.0), Vec4(1.0, 0.0, 0.0, 1.0);
    UnitPower(left, one, 1.0, 0.0);
    UnitPower(right, one, 0.0, 1.0);
    UnitArrives(t, p, left, one, true);
    UnitArrives(t, p, right, one, false);
  }

  lemma LossOfZero(j: real)
    ensures Loss(j, 0.0) == 0.0
  {
  }
}
