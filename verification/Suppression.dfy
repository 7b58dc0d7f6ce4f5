/** Greedy non-maximum suppression, in the two forms the detectors use. */
module Suppression {
  import opened RealArithmetic

  const F32_EPSILON: real := 1.0 / 8388608.0

  datatype Box = Box(x1: real, y1: real, x2: real, y2: real)

  datatype Candidate = Candidate(box: Box, score: real, tag: int)

  function Max(a: real, b: real): real { if a < b then b else a }

  function Min(a: real, b: real): real { if b < a then b else a }

  function Area(b: Box): real { Max(b.x2 - b.x1, 0.0) * Max(b.y2 - b.y1, 0.0) }

  function OverlapWidth(a: Box, b: Box): real { Max(Min(a.x2, b.x2) - Max(a.x1, b.x1), 0.0) }

  function OverlapHeight(a: Box, b: Box): real { Max(Min(a.y2, b.y2) - Max(a.y1, b.y1), 0.0) }

  function Intersection(a: Box, b: Box): real { OverlapWidth(a, b) * OverlapHeight(a, b) }

  function Union(a: Box, b: Box): real { Area(a) + Area(b) - Intersection(a, b) }

  function Iou(a: Box, b: Box): real {
    if Union(a, b) <= F32_EPSILON then 0.0 else Intersection(a, b) / Union(a, b)
  }

  lemma OverlapBound(a: Box, b: Box)
    ensures 0.0 <= OverlapWidth(a, b) <= Max(a.x2 - a.x1, 0.0) && OverlapWidth(a, b) == OverlapWidth(b, a)
    ensures 0.0 <= OverlapHeight(a, b) <= Max(a.y2 - a.y1, 0.0) && OverlapHeight(a, b) == OverlapHeight(b, a)
  {
  }

  lemma IntersectionBound(a: Box, b: Box)
    ensures 0.0 <= Intersection(a, b) <= Area(a) && Intersection(a, b) == Intersection(b, a)
  {
    OverlapBound(a, b);
    hide OverlapWidth, OverlapHeight, Max;
    ProductBound(OverlapWidth(a, b), OverlapHeight(a, b), Max(a.x2 - a.x1, 0.0), Max(a.y2 - a.y1, 0.0));
  }

  /** Overlap is symmetric, between 0 and 1, and 1 for a box with itself unless the box is negligible. */
  lemma IouBounds(a: Box, b: Box)
    ensures Iou(a, b) == Iou(b, a)
    ensures 0.0 <= Iou(a, b) <= 1.0
    ensures Area(a) > F32_EPSILON ==> Iou(a, a) == 1.0
  {
    IntersectionBound(a, b);
    IntersectionBound(b, a);
    SelfIntersection(a);
    hide Intersection, Area;
    if Union(a, b) > F32_EPSILON {
      Fraction(Intersection(a, b), Union(a, b));
    }
    if Area(a) > F32_EPSILON {
      Fraction(Area(a), Area(a));
    }
  }

  lemma SelfIntersection(a: Box)
    ensures Intersection(a, a) == Area(a)
  {
  }

  /** The rectangle two boxes have in common; its sides are reversed where they have none. */
  function Common(a: Box, b: Box): Box {
    Box(if a.x1 < b.x1 then b.x1 else a.x1, if a.y1 < b.y1 then b.y1 else a.y1,
        if a.x2 < b.x2 then a.x2 else b.x2, if a.y2 < b.y2 then a.y2 else b.y2)
  }

  predicate Proper(b: Box) { b.x1 < b.x2 && b.y1 < b.y2 }

  /** Width times height, and nothing for a box with a reversed or empty side. */
  lemma AreaOf(b: Box)
    ensures Area(b) == if Proper(b) then (b.x2 - b.x1) * (b.y2 - b.y1) else 0.0
  {
  }

  lemma IntersectionIsCommon(a: Box, b: Box)
    ensures Intersection(a, b) == Area(Common(a, b))
  {
  }

  /** Overlap is the share of the common rectangle in the union, and nothing if the union is negligible. */
  lemma IouIsShareOfUnion(a: Box, b: Box)
    ensures var c := Area(Common(a, b));
            var whole := Area(a) + Area(b) - c;
            if whole > 1.0 / 8388608.0 then Iou(a, b) * whole == c else Iou(a, b) == 0.0
  {
    hide Area, Intersection, Common;
    IntersectionIsCommon(a, b);
    if Union(a, b) > F32_EPSILON {
      Quotient(Intersection(a, b), Union(a, b));
    }
  }

  /** A box inside another overlaps it by its share of the area. */
  lemma InsideShare(a: Box, b: Box)
    requires a.x1 <= b.x1 && b.x2 <= a.x2 && a.y1 <= b.y1 && b.y2 <= a.y2 && Area(a) > 1.0 / 8388608.0
    ensures Iou(a, b) == Area(b) / Area(a)
  {
    IouIsShareOfUnion(a, b);
    assert Common(a, b) == b;
    hide Area, Iou;
    Quotient(Area(b), Area(a));
    Cancel(Iou(a, b), Area(b) / Area(a), Area(a));
  }

  lemma SameArea(c: Box, a: Box)
    requires a.x1 <= c.x1 && c.x2 <= a.x2 && a.y1 <= c.y1 && c.y2 <= a.y2
    requires Proper(a) && Area(c) == Area(a)
    ensures c == a
  {
    hide Area;
    AreaOf(a);
    AreaOf(c);
    PositiveProduct(a.x2 - a.x1, a.y2 - a.y1);
    EqualProducts(c.x2 - c.x1, c.y2 - c.y1, a.x2 - a.x1, a.y2 - a.y1);
  }

  /** Only equal boxes overlap fully. */
  lemma FullOverlap(a: Box, b: Box)
    requires Proper(a) && Proper(b) && Iou(a, b) == 1.0
    ensures a == b
  {
    hide Iou, Area, Intersection, Proper;
    IouIsShareOfUnion(a, b);
    IntersectionBound(a, b);
    IntersectionBound(b, a);
    IntersectionIsCommon(a, b);
    SameArea(Common(a, b), a);
    SameArea(Common(a, b), b);
  }

  // ----- sorting: stable, as the library's -----

  /** Puts c behind everything of at most its score. */
  function PutAscending(s: seq<Candidate>, c: Candidate): seq<Candidate> {
    if s != [] && s[|s| - 1].score > c.score then PutAscending(s[..|s| - 1], c) + [s[|s| - 1]]
    else s + [c]
  }

  function SortAscending(s: seq<Candidate>): seq<Candidate> {
    if s == [] then [] else PutAscending(SortAscending(s[..|s| - 1]), s[|s| - 1])
  }

  /** Puts c in front of everything of at most its score. */
  function PutDescending(c: Candidate, s: seq<Candidate>): seq<Candidate> {
    if s != [] && s[0].score > c.score then [s[0]] + PutDescending(c, s[1..])
    else [c] + s
  }

  function SortDescending(s: seq<Candidate>): seq<Candidate> {
    if s == [] then [] else PutDescending(s[0], SortDescending(s[1..]))
  }

  ghost predicate Descending(s: seq<Candidate>) {
    forall i, j :: 0 <= i < j < |s| ==> s[i].score >= s[j].score
  }

  function WithScore(s: seq<Candidate>, score: real): seq<Candidate> {
    if s == [] then [] else (if s[0].score == score then [s[0]] else []) + WithScore(s[1..], score)
  }

  function Reverse(s: seq<Candidate>): (r: seq<Candidate>)
    ensures |r| == |s| && forall i :: 0 <= i < |s| ==> r[i] == s[|s| - 1 - i]
  {
    if s == [] then [] else Reverse(s[1..]) + [s[0]]
  }

  lemma {:induction false} PutDescendingElements(c: Candidate, s: seq<Candidate>)
    ensures multiset(PutDescending(c, s)) == multiset{c} + multiset(s)
  {
    if s != [] && s[0].score > c.score {
      PutDescendingElements(c, s[1..]);
      assert s == [s[0]] + s[1..];
    }
  }

  lemma {:induction false} PutDescendingSorted(c: Candidate, s: seq<Candidate>)
    requires Descending(s)
    ensures Descending(PutDescending(c, s))
  {
    if s != [] && s[0].score > c.score {
      var tail := s[1..];
      var p := PutDescending(c, tail);
      PutDescendingSorted(c, tail);
      PutDescendingElements(c, tail);
      forall k | 0 <= k < |p| ensures s[0].score >= p[k].score {
        assert p[k] in multiset(p);
        assert p[k] == c || p[k] in tail;
      }
    }
  }

  lemma WithScoreCons(c: Candidate, s: seq<Candidate>, score: real)
    ensures WithScore([c] + s, score) == (if c.score == score then [c] else []) + WithScore(s, score)
  {
  }

  lemma {:induction false} PutDescendingStable(c: Candidate, s: seq<Candidate>, score: real)
    ensures WithScore(PutDescending(c, s), score) == (if c.score == score then [c] else []) + WithScore(s, score)
  {
    if s != [] && s[0].score > c.score {
      PutDescendingStable(c, s[1..], score);
      WithScoreCons(s[0], PutDescending(c, s[1..]), score);
    } else {
      WithScoreCons(c, s, score);
    }
  }

  /** The order candidates are processed in: by falling score, equal scores in their input order. */
  lemma {:induction false} SortDescendingSpec(s: seq<Candidate>)
    ensures Descending(SortDescending(s))
    ensures multiset(SortDescending(s)) == multiset(s)
    ensures forall score :: WithScore(SortDescending(s), score) == WithScore(s, score)
  {
    if s == [] {
    } else {
      SortDescendingSpec(s[1..]);
      PutDescendingElements(s[0], SortDescending(s[1..]));
      PutDescendingSorted(s[0], SortDescending(s[1..]));
      assert s == [s[0]] + s[1..];
      forall score ensures WithScore(SortDescending(s), score) == WithScore(s, score) {
        PutDescendingStable(s[0], SortDescending(s[1..]), score);
      }
    }
  }

  lemma {:induction false} ReverseInit(s: seq<Candidate>)
    requires s != []
    ensures Reverse(s) == [s[|s| - 1]] + Reverse(s[..|s| - 1])
  {
  }

  lemma {:induction false} PutReversed(s: seq<Candidate>, c: Candidate)
    ensures Reverse(PutAscending(s, c)) == PutDescending(c, Reverse(s))
  {
    if s != [] && s[|s| - 1].score > c.score {
      var init, last := s[..|s| - 1], s[|s| - 1];
      PutReversed(init, c);
      ReverseInit(s);
      ReverseInit(PutAscending(s, c));
      assert PutAscending(s, c)[..|PutAscending(init, c)|] == PutAscending(init, c);
      assert Reverse(s)[1..] == Reverse(init);
    } else {
      ReverseInit(s + [c]);
      assert (s + [c])[..|s|] == s;
      if s != [] {
        ReverseInit(s);
      }
    }
  }

  /** Popping from the end of the ascending order visits the reversed input in descending order. */
  lemma {:induction false} SortsReversed(s: seq<Candidate>)
    ensures Reverse(SortAscending(s)) == SortDescending(Reverse(s))
  {
    if s == [] {
    } else {
      var init, last := s[..|s| - 1], s[|s| - 1];
      SortsReversed(init);
      PutReversed(SortAscending(init), last);
      ReverseInit(s);
      assert Reverse(s)[1..] == Reverse(init);
    }
  }

  // ----- greedy suppression -----

  function Retain(current: Candidate, s: seq<Candidate>, threshold: real): (r: seq<Candidate>)
    ensures |r| <= |s|
  {
    if s == [] then []
    else (if Iou(current.box, s[0].box) < threshold then [s[0]] else []) + Retain(current, s[1..], threshold)
  }

  /** Keeps the first, drops what overlaps it, goes on with the rest. */
  function Greedy(s: seq<Candidate>, threshold: real): seq<Candidate>
    decreases |s|
  {
    if s == [] then [] else [s[0]] + Greedy(Retain(s[0], s[1..], threshold), threshold)
  }

  method RetainBelow(current: Candidate, s: seq<Candidate>, threshold: real) returns (r: seq<Candidate>)
    ensures r == Retain(current, s, threshold)
    ensures Reverse(r) == Retain(current, Reverse(s), threshold)
  {
    hide Iou;
    r := [];
    for i := 0 to |s|
      invariant r + Retain(current, s[i..], threshold) == Retain(current, s, threshold)
    {
      if Iou(current.box, s[i].box) < threshold {
        r := r + [s[i]];
      }
      assert s[i..][1..] == s[i + 1..];
    }
    RetainReversed(current, s, threshold);
  }

  lemma {:induction false} RetainConcat(current: Candidate, s: seq<Candidate>, t: seq<Candidate>, threshold: real)
    ensures Retain(current, s + t, threshold) == Retain(current, s, threshold) + Retain(current, t, threshold)
  {
    hide Iou;
    if s == [] {
      assert s + t == t;
    } else {
      assert (s + t)[1..] == s[1..] + t;
      RetainConcat(current, s[1..], t, threshold);
    }
  }

  lemma {:induction false} ReverseConcat(s: seq<Candidate>, t: seq<Candidate>)
    ensures Reverse(s + t) == Reverse(t) + Reverse(s)
  {
  }

  lemma {:induction false} RetainReversed(current: Candidate, s: seq<Candidate>, threshold: real)
    ensures Reverse(Retain(current, s, threshold)) == Retain(current, Reverse(s), threshold)
  {
    hide Iou;
    if s == [] {
    } else {
      RetainReversed(current, s[1..], threshold);
      RetainConcat(current, Reverse(s[1..]), [s[0]], threshold);
      var head := if Iou(current.box, s[0].box) < threshold then [s[0]] else [];
      ReverseConcat(head, Retain(current, s[1..], threshold));
      assert Retain(current, [s[0]], threshold) == head;
      assert Reverse(head) == head;
    }
  }

  /** What the energy mechanism's form keeps. */
  function EnergyKept(candidates: seq<Candidate>, threshold: real): seq<Candidate> {
    Greedy(SortDescending(candidates), threshold)
  }

  /** What the armor detector's form keeps. */
  function ArmorKept(candidates: seq<Candidate>, threshold: real): seq<Candidate> {
    Greedy(SortDescending(Reverse(candidates)), threshold)
  }

  /** The armor detector's form: ascending order, popped from the end. */
  method NmsArmor(candidates: seq<Candidate>, threshold: real) returns (kept: seq<Candidate>)
    ensures kept == ArmorKept(candidates, threshold)
  {
    var left := SortAscending(candidates);
    SortsReversed(candidates);
    kept := [];
    while left != []
      invariant kept + Greedy(Reverse(left), threshold) == Greedy(SortDescending(Reverse(candidates)), threshold)
      decreases |left|
    {
      var current := left[|left| - 1];
      ReverseInit(left);
      assert Reverse(left)[1..] == Reverse(left[..|left| - 1]);
      left := RetainBelow(current, left[..|left| - 1], threshold);
      kept := kept + [current];
    }
  }

  /** The energy mechanism's form: descending order, removed from the front. */
  method NmsEnergy(candidates: seq<Candidate>, threshold: real) returns (kept: seq<Candidate>)
    ensures kept == EnergyKept(candidates, threshold)
  {
    var left := SortDescending(candidates);
    kept := [];
    while left != []
      invariant kept + Greedy(left, threshold) == Greedy(SortDescending(candidates), threshold)
      decreases |left|
    {
      var candidate := left[0];
      left := RetainBelow(candidate, left[1..], threshold);
      kept := kept + [candidate];
    }
  }

  // ----- the reference: decided position by position -----

  /** Position i survives exactly when no surviving earlier position overlaps it too much. */
  predicate Survives(s: seq<Candidate>, threshold: real, i: nat)
    requires i < |s|
    decreases i
  {
    forall j :: 0 <= j < i && Survives(s, threshold, j) ==> Iou(s[j].box, s[i].box) < threshold
  }

  function Survivors(s: seq<Candidate>, threshold: real, n: nat): seq<Candidate>
    requires n <= |s|
  {
    if n == 0 then [] else Survivors(s, threshold, n - 1) + (if Survives(s, threshold, n - 1) then [s[n - 1]] else [])
  }

  predicate Clear(kept: seq<Candidate>, c: Candidate, threshold: real) {
    forall k :: 0 <= k < |kept| ==> Iou(kept[k].box, c.box) < threshold
  }

  /** s without everything that overlaps a kept candidate. */
  function RetainAll(kept: seq<Candidate>, s: seq<Candidate>, threshold: real): seq<Candidate> {
    if s == [] then [] else (if Clear(kept, s[0], threshold) then [s[0]] else []) + RetainAll(kept, s[1..], threshold)
  }

  lemma {:induction false} RetainAllExtend(kept: seq<Candidate>, c: Candidate, s: seq<Candidate>, threshold: real)
    ensures RetainAll(kept + [c], s, threshold) == Retain(c, RetainAll(kept, s, threshold), threshold)
  {
    hide Iou;
    if s == [] {
    } else {
      RetainAllExtend(kept, c, s[1..], threshold);
      var kept' := kept + [c];
      assert Clear(kept', s[0], threshold) <==> Clear(kept, s[0], threshold) && Iou(c.box, s[0].box) < threshold by {
        assert kept'[|kept|] == c;
        assert forall k :: 0 <= k < |kept| ==> kept'[k] == kept[k];
      }
      var head := if Clear(kept, s[0], threshold) then [s[0]] else [];
      RetainConcat(c, head, RetainAll(kept, s[1..], threshold), threshold);
      assert Retain(c, [s[0]], threshold) == if Iou(c.box, s[0].box) < threshold then [s[0]] else [];
    }
  }

  lemma {:induction false} SurvivorsClear(s: seq<Candidate>, threshold: real, n: nat, c: Candidate)
    requires n <= |s|
    ensures Clear(Survivors(s, threshold, n), c, threshold) <==>
            forall j :: 0 <= j < n && Survives(s, threshold, j) ==> Iou(s[j].box, c.box) < threshold
  {
    hide Iou;
    if n == 0 {
    } else {
      SurvivorsClear(s, threshold, n - 1, c);
      var before, after := Survivors(s, threshold, n - 1), Survivors(s, threshold, n);
      assert forall k :: 0 <= k < |before| ==> after[k] == before[k];
      if Survives(s, threshold, n - 1) {
        assert after[|before|] == s[n - 1];
      }
    }
  }

  lemma RetainAllHead(kept: seq<Candidate>, s: seq<Candidate>, threshold: real, n: nat)
    requires n < |s|
    ensures RetainAll(kept, s[n..], threshold) ==
            (if Clear(kept, s[n], threshold) then [s[n]] else []) + RetainAll(kept, s[n + 1..], threshold)
  {
  }

  lemma GreedyHead(c: Candidate, s: seq<Candidate>, threshold: real)
    ensures Greedy([c] + s, threshold) == [c] + Greedy(Retain(c, s, threshold), threshold)
  {
  }

  lemma KeepsHead(kept: seq<Candidate>, c: Candidate, s: seq<Candidate>, threshold: real)
    ensures kept + Greedy([c] + RetainAll(kept, s, threshold), threshold)
            == (kept + [c]) + Greedy(RetainAll(kept + [c], s, threshold), threshold)
  {
    hide *;
    RetainAllExtend(kept, c, s, threshold);
    GreedyHead(c, RetainAll(kept, s, threshold), threshold);
  }

  lemma NextSurvivor(s: seq<Candidate>, threshold: real, n: nat)
    requires n < |s|
    ensures var kept := Survivors(s, threshold, n);
            Survivors(s, threshold, n + 1) == kept + if Clear(kept, s[n], threshold) then [s[n]] else []
  {
    hide Clear, Iou;
    SurvivorsClear(s, threshold, n, s[n]);
  }

  /** One round of the greedy loop decides position n as Survives does. */
  lemma GreedyRound(s: seq<Candidate>, threshold: real, n: nat)
    requires n < |s|
    ensures var kept, next := Survivors(s, threshold, n), Survivors(s, threshold, n + 1);
            kept + Greedy(RetainAll(kept, s[n..], threshold), threshold)
            == next + Greedy(RetainAll(next, s[n + 1..], threshold), threshold)
  {
    hide *;
    var kept, next := Survivors(s, threshold, n), Survivors(s, threshold, n + 1);
    NextSurvivor(s, threshold, n);
    RetainAllHead(kept, s, threshold, n);
    var r := RetainAll(kept, s[n + 1..], threshold);
    if Clear(kept, s[n], threshold) {
      KeepsHead(kept, s[n], s[n + 1..], threshold);
    } else {
      assert [] + r == r && next == kept;
    }
  }

  lemma {:induction false} GreedyFrom(s: seq<Candidate>, threshold: real, n: nat)
    requires n <= |s|
    ensures var kept := Survivors(s, threshold, n);
            kept + Greedy(RetainAll(kept, s[n..], threshold), threshold) == Survivors(s, threshold, |s|)
    decreases |s| - n
  {
    hide Survivors, Survives, Retain, Iou, Clear;
    if n == |s| {
      assert s[n..] == [];
    } else {
      GreedyRound(s, threshold, n);
      GreedyFrom(s, threshold, n + 1);
    }
  }

  lemma {:induction false} RetainAllNothing(s: seq<Candidate>, threshold: real)
    ensures RetainAll([], s, threshold) == s
  {
    if s == [] {
    } else {
      RetainAllNothing(s[1..], threshold);
    }
  }

  /** Suppression keeps exactly the surviving positions, in order. */
  lemma GreedyIsSurvivors(s: seq<Candidate>, threshold: real)
    ensures Greedy(s, threshold) == Survivors(s, threshold, |s|)
  {
    GreedyFrom(s, threshold, 0);
    assert s[0..] == s;
    RetainAllNothing(s, threshold);
  }

  lemma {:induction false} SurvivorsElements(s: seq<Candidate>, threshold: real, n: nat)
    requires n <= |s|
    ensures multiset(Survivors(s, threshold, n)) <= multiset(s[..n])
  {
    hide Iou, Survives;
    if n == 0 {
    } else {
      SurvivorsElements(s, threshold, n - 1);
      assert s[..n] == s[..n - 1] + [s[n - 1]];
    }
  }

  lemma SurvivorAmong(s: seq<Candidate>, threshold: real, n: nat, c: Candidate)
    requires n <= |s| && c in Survivors(s, threshold, n)
    ensures c in s[..n]
  {
  }

  lemma {:induction false} SurvivorsDescending(s: seq<Candidate>, threshold: real, n: nat)
    requires n <= |s| && Descending(s)
    ensures Descending(Survivors(s, threshold, n))
  {
    hide Iou, Survives;
    if n == 0 {
    } else {
      SurvivorsDescending(s, threshold, n - 1);
      var before, c := Survivors(s, threshold, n - 1), s[n - 1];
      forall k | 0 <= k < |before| ensures before[k].score >= c.score {
        SurvivorAmong(s, threshold, n - 1, before[k]);
      }
    }
  }

  ghost predicate Apart(s: seq<Candidate>, threshold: real) {
    forall a, b :: 0 <= a < b < |s| ==> Iou(s[a].box, s[b].box) < threshold
  }

  /** The kept candidates come by falling score and no two of them overlap too much. */
  lemma {:induction false} SurvivorsSpec(s: seq<Candidate>, threshold: real, n: nat)
    requires n <= |s| && Descending(s)
    ensures Descending(Survivors(s, threshold, n)) && Apart(Survivors(s, threshold, n), threshold)
  {
    SurvivorsDescending(s, threshold, n);
    hide Iou, Descending;
    if n == 0 {
    } else {
      var before, c := Survivors(s, threshold, n - 1), s[n - 1];
      SurvivorsSpec(s, threshold, n - 1);
      SurvivorsClear(s, threshold, n - 1, c);
    }
  }

  /** A position that did not survive is overlapped by a kept candidate of at least its score. */
  lemma DroppedIsCovered(s: seq<Candidate>, threshold: real, i: nat)
    requires i < |s| && Descending(s) && !Survives(s, threshold, i)
    ensures exists j :: 0 <= j < i && Survives(s, threshold, j) && s[j].score >= s[i].score
                        && Iou(s[j].box, s[i].box) >= threshold
  {
  }

  /** What suppression of any input keeps: a part of it, falling in score, spread out, and covering all the rest. */
  lemma SuppressionSpec(candidates: seq<Candidate>, threshold: real)
    ensures var kept := Greedy(SortDescending(candidates), threshold);
            && multiset(kept) <= multiset(candidates)
            && Descending(kept) && Apart(kept, threshold)
            && forall c :: c in candidates ==> c in kept || Covered(kept, c, threshold)
  {
    var s := SortDescending(candidates);
    SortDescendingSpec(candidates);
    GreedyIsSurvivors(s, threshold);
    SurvivorsElements(s, threshold, |s|);
    SurvivorsSpec(s, threshold, |s|);
    assert s[..|s|] == s;
    hide Survivors, SortDescending, Greedy, Descending, Apart, Covered, Survives;
    var kept := Greedy(s, threshold);
    forall c | c in candidates ensures c in kept || Covered(kept, c, threshold) {
      assert c in multiset(s);
      var i :| 0 <= i < |s| && s[i] == c;
      KeptOrCovered(s, threshold, i);
    }
  }

  ghost predicate Covered(kept: seq<Candidate>, c: Candidate, threshold: real) {
    exists k :: 0 <= k < |kept| && kept[k].score >= c.score && Iou(kept[k].box, c.box) >= threshold
  }

  lemma {:induction false} SurvivorKept(s: seq<Candidate>, threshold: real, n: nat, i: nat)
    requires i < n <= |s| && Survives(s, threshold, i)
    ensures s[i] in Survivors(s, threshold, n)
  {
    hide Iou, Survives;
    if i < n - 1 {
      SurvivorKept(s, threshold, n - 1, i);
    }
  }

  lemma KeptOrCovered(s: seq<Candidate>, threshold: real, i: nat)
    requires i < |s| && Descending(s)
    ensures var kept := Survivors(s, threshold, |s|); s[i] in kept || Covered(kept, s[i], threshold)
  {
    if Survives(s, threshold, i) {
      SurvivorKept(s, threshold, |s|, i);
    } else {
      DroppedIsCovered(s, threshold, i);
      hide Iou, Survivors, Survives;
      var j :| 0 <= j < i && Survives(s, threshold, j) && s[j].score >= s[i].score
               && Iou(s[j].box, s[i].box) >= threshold;
      SurvivorKept(s, threshold, |s|, j);
    }
  }

  ghost predicate DistinctScores(s: seq<Candidate>) {
    forall i, j :: 0 <= i < j < |s| ==> s[i].score != s[j].score
  }

  lemma {:induction false} PutsCommute(a: Candidate, c: Candidate, s: seq<Candidate>)
    requires a.score != c.score
    ensures PutDescending(a, PutDescending(c, s)) == PutDescending(c, PutDescending(a, s))
  {
    if s != [] && s[0].score > a.score && s[0].score > c.score {
      PutsCommute(a, c, s[1..]);
      assert ([s[0]] + PutDescending(c, s[1..]))[1..] == PutDescending(c, s[1..]);
      assert ([s[0]] + PutDescending(a, s[1..]))[1..] == PutDescending(a, s[1..]);
    } else {
      assert ([a] + s)[1..] == s && ([c] + s)[1..] == s;
      if s != [] {
        assert ([s[0]] + PutDescending(a, s[1..]))[1..] == PutDescending(a, s[1..]);
        assert ([s[0]] + PutDescending(c, s[1..]))[1..] == PutDescending(c, s[1..]);
      }
    }
  }

  lemma {:induction false} SortLast(s: seq<Candidate>, c: Candidate)
    requires forall i :: 0 <= i < |s| ==> s[i].score != c.score
    ensures SortDescending(s + [c]) == PutDescending(c, SortDescending(s))
  {
    if s == [] {
      assert (s + [c])[1..] == [];
    } else {
      assert (s + [c])[1..] == s[1..] + [c];
      SortLast(s[1..], c);
      PutsCommute(s[0], c, SortDescending(s[1..]));
    }
  }

  lemma {:induction false} SortReverse(s: seq<Candidate>)
    requires DistinctScores(s)
    ensures SortDescending(Reverse(s)) == SortDescending(s)
  {
    if s == [] {
    } else {
      SortReverse(s[1..]);
      SortLast(Reverse(s[1..]), s[0]);
    }
  }

  /** The two forms agree on all inputs with distinct scores. */
  lemma FormsAgree(candidates: seq<Candidate>, threshold: real)
    requires DistinctScores(candidates)
    ensures ArmorKept(candidates, threshold) == EnergyKept(candidates, threshold)
  {
    SortReverse(candidates);
  }

  /** With a tie they may keep different boxes: each prefers the other end of the input. */
  lemma FormsDifferOnTies()
    ensures var box := Box(0.0, 0.0, 1.0, 1.0);
            var a, b := Candidate(box, 0.5, 0), Candidate(box, 0.5, 1);
            Greedy(SortDescending([a, b]), 0.5) == [a] && Greedy(SortDescending(Reverse([a, b])), 0.5) == [b]
  {
    var box := Box(0.0, 0.0, 1.0, 1.0);
    var a, b := Candidate(box, 0.5, 0), Candidate(box, 0.5, 1);
    IouBounds(box, box);
    assert Area(box) == 1.0;
    hide Iou;
    assert Reverse([a, b]) == [b, a];
    GreedyPair(a, b);
    GreedyPair(b, a);
  }

  lemma GreedyPair(a: Candidate, b: Candidate)
    requires a.score == b.score && Iou(a.box, b.box) >= 0.5
    ensures Greedy(SortDescending([a, b]), 0.5) == [a]
  {
    hide Iou;
    assert [a, b][1..] == [b];
    assert SortDescending([b]) == [b] by { assert [b][1..] == []; }
    assert SortDescending([a, b]) == [a, b];
    assert Retain(a, [b], 0.5) == [] by { assert [b][1..] == []; }
    assert Greedy([], 0.5) == [];
  }
}
