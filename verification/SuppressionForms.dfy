/** When the two forms of suppression keep the same boxes. */
module SuppressionForms {
  import opened Suppression

  ghost predicate SameKept(candidates: seq<Candidate>, threshold: real) {
    multiset(EnergyKept(candidates, threshold)) == multiset(ArmorKept(candidates, threshold))
  }

  /** No two candidates of equal score overlap at the threshold. */
  ghost predicate TiedApart(s: seq<Candidate>, threshold: real) {
    forall i, j :: 0 <= i < j < |s| && s[i].score == s[j].score ==> Iou(s[i].box, s[j].box) < threshold
  }

  // ----- the order of tied candidates does not matter while they do not overlap -----

  lemma {:induction false} TwoPlaces(s: seq<Candidate>, c: Candidate) returns (i: nat, j: nat)
    requires multiset(s)[c] >= 2
    ensures i < j < |s| && s[i] == s[j] == c
  {
    var init, last := s[..|s| - 1], s[|s| - 1];
    assert s == init + [last];
    if last == c {
      assert c in multiset(init);
      i :| 0 <= i < |init| && init[i] == c;
      j := |s| - 1;
    } else {
      i, j := TwoPlaces(init, c);
    }
  }

  lemma CountTwice(s: seq<Candidate>, i: nat, j: nat)
    requires i < j < |s| && s[i] == s[j]
    ensures multiset(s)[s[i]] >= 2
  {
    assert s == s[..j] + [s[j]] + s[j + 1..];
    assert s[i] in s[..j];
    assert multiset(s) == multiset(s[..j]) + multiset{s[j]} + multiset(s[j + 1..]);
  }

  lemma TiedApartPermutes(s: seq<Candidate>, t: seq<Candidate>, threshold: real)
    requires multiset(s) == multiset(t) && TiedApart(s, threshold)
    ensures TiedApart(t, threshold)
  {
    hide Iou;
    forall i, j | 0 <= i < j < |t| && t[i].score == t[j].score ensures Iou(t[i].box, t[j].box) < threshold {
      IouBounds(t[i].box, t[j].box);
      if t[i] == t[j] {
        CountTwice(t, i, j);
        var k, l := TwoPlaces(s, t[i]);
      } else {
        assert t[i] in multiset(s) && t[j] in multiset(s);
        var k :| 0 <= k < |s| && s[k] == t[i];
        var l :| 0 <= l < |s| && s[l] == t[j];
        assert k < l || l < k;
      }
    }
  }

  lemma Overlapped(s: seq<Candidate>, threshold: real, i: nat) returns (j: nat)
    requires i < |s| && Descending(s) && TiedApart(s, threshold) && !Survives(s, threshold, i)
    ensures j < i && Survives(s, threshold, j) && s[j].score > s[i].score && Iou(s[j].box, s[i].box) >= threshold
  {
    hide Iou;
    j :| 0 <= j < i && Survives(s, threshold, j) && Iou(s[j].box, s[i].box) >= threshold;
  }

  lemma Higher(s: seq<Candidate>, c: Candidate, i: nat) returns (j: nat)
    requires i < |s| && Descending(s) && c in multiset(s) && c.score > s[i].score
    ensures j < i && s[j] == c
  {
    j :| 0 <= j < |s| && s[j] == c;
  }

  /** A candidate survives in one descending order exactly when it survives in any other. */
  lemma {:induction false} SurvivalIsOrderFree(s: seq<Candidate>, t: seq<Candidate>, threshold: real, i: nat, k: nat)
    requires multiset(s) == multiset(t) && Descending(s) && Descending(t)
    requires TiedApart(s, threshold) && TiedApart(t, threshold)
    requires i < |s| && k < |t| && s[i] == t[k]
    ensures Survives(s, threshold, i) <==> Survives(t, threshold, k)
    decreases i
  {
    if !Survives(s, threshold, i) {
      var j := Overlapped(s, threshold, i);
      hide Iou, TiedApart;
      assert s[j] in multiset(t);
      var l := Higher(t, s[j], k);
      SurvivalIsOrderFree(s, t, threshold, j, l);
    }
    if !Survives(t, threshold, k) {
      var l := Overlapped(t, threshold, k);
      hide Iou, TiedApart;
      assert t[l] in multiset(s);
      var j := Higher(s, t[l], i);
      SurvivalIsOrderFree(s, t, threshold, j, l);
    }
  }

  /** All places of a candidate survive, or none does. */
  ghost predicate Fate(s: seq<Candidate>, threshold: real, c: Candidate, alive: bool) {
    forall i :: 0 <= i < |s| && s[i] == c ==> (Survives(s, threshold, i) <==> alive)
  }

  lemma AppendCount(s: seq<Candidate>, x: Candidate, c: Candidate)
    ensures multiset(s + [x])[c] == multiset(s)[c] + if x == c then 1 else 0
  {
  }

  lemma NoSurvivors(s: seq<Candidate>, threshold: real)
    ensures Survivors(s, threshold, 0) == []
  {
  }

  lemma NextSurvivors(s: seq<Candidate>, threshold: real, n: nat, c: Candidate, alive: bool)
    requires n < |s| && Fate(s, threshold, c, alive)
    ensures multiset(Survivors(s, threshold, n + 1))[c] ==
            multiset(Survivors(s, threshold, n))[c] + if alive && s[n] == c then 1 else 0
  {
    hide Survives;
    AppendCount(Survivors(s, threshold, n), s[n], c);
    assert Survivors(s, threshold, n) + [] == Survivors(s, threshold, n);
  }

  lemma {:induction false} SurvivorsCount(s: seq<Candidate>, threshold: real, n: nat, c: Candidate, alive: bool)
    requires n <= |s| && Fate(s, threshold, c, alive)
    ensures multiset(Survivors(s, threshold, n))[c] == if alive then multiset(s[..n])[c] else 0
  {
    hide *;
    if n == 0 {
      NoSurvivors(s, threshold);
    } else {
      SurvivorsCount(s, threshold, n - 1, c, alive);
      NextSurvivors(s, threshold, n - 1, c, alive);
      AppendCount(s[..n - 1], s[n - 1], c);
      assert s[..n] == s[..n - 1] + [s[n - 1]];
    }
  }

  lemma SameSurvivors(s: seq<Candidate>, t: seq<Candidate>, threshold: real)
    requires multiset(s) == multiset(t) && Descending(s) && Descending(t) && TiedApart(s, threshold)
    ensures multiset(Survivors(s, threshold, |s|)) == multiset(Survivors(t, threshold, |t|))
  {
    TiedApartPermutes(s, t, threshold);
    assert s[..|s|] == s && t[..|t|] == t;
    var a, b := multiset(Survivors(s, threshold, |s|)), multiset(Survivors(t, threshold, |t|));
    hide Survivors, Fate;
    forall c: Candidate ensures a[c] == b[c] {
      var alive := exists i :: 0 <= i < |s| && s[i] == c && Survives(s, threshold, i);
      SameFate(s, t, threshold, c, alive);
      SurvivorsCount(s, threshold, |s|, c, alive);
      SurvivorsCount(t, threshold, |t|, c, alive);
    }
  }

  lemma SameFate(s: seq<Candidate>, t: seq<Candidate>, threshold: real, c: Candidate, alive: bool)
    requires multiset(s) == multiset(t) && Descending(s) && Descending(t)
    requires TiedApart(s, threshold) && TiedApart(t, threshold)
    requires alive <==> exists i :: 0 <= i < |s| && s[i] == c && Survives(s, threshold, i)
    ensures Fate(s, threshold, c, alive) && Fate(t, threshold, c, alive)
  {
    hide Survives, TiedApart, Descending;
    forall i, j | 0 <= i < |s| && 0 <= j < |s| && s[i] == c && s[j] == c
      ensures Survives(s, threshold, i) <==> Survives(s, threshold, j)
    {
      SurvivalIsOrderFree(s, s, threshold, i, j);
    }
    forall k | 0 <= k < |t| && t[k] == c ensures Survives(t, threshold, k) <==> alive {
      assert c in multiset(s);
      var i :| 0 <= i < |s| && s[i] == c;
      SurvivalIsOrderFree(s, t, threshold, i, k);
    }
  }

  lemma {:induction false} ReverseElements(s: seq<Candidate>)
    ensures multiset(Reverse(s)) == multiset(s)
  {
    if s != [] {
      ReverseElements(s[1..]);
      assert s == [s[0]] + s[1..];
    }
  }

  /** On every input without overlapping ties both forms keep the same candidates. */
  lemma SameUnlessTiesOverlap(candidates: seq<Candidate>, threshold: real)
    requires TiedApart(candidates, threshold)
    ensures SameKept(candidates, threshold)
  {
    var reversed := Reverse(candidates);
    var s, t := SortDescending(candidates), SortDescending(reversed);
    SortDescendingSpec(candidates);
    SortDescendingSpec(reversed);
    ReverseElements(candidates);
    GreedyIsSurvivors(s, threshold);
    GreedyIsSurvivors(t, threshold);
    hide *;
    TiedApartPermutes(candidates, s, threshold);
    SameSurvivors(s, t, threshold);
    SameKeptIs(candidates, threshold);
  }

  lemma SameKeptIs(candidates: seq<Candidate>, threshold: real)
    ensures SameKept(candidates, threshold) <==>
            multiset(Greedy(SortDescending(candidates), threshold)) ==
            multiset(Greedy(SortDescending(Reverse(candidates)), threshold))
  {
  }

  // ----- a tie can always be made to matter -----

  /** Candidates of these scores in these boxes, told apart by their positions. */
  function Placed(scores: seq<real>, boxes: seq<Box>): (c: seq<Candidate>)
    requires |scores| == |boxes|
    ensures |c| == |scores| && forall i :: 0 <= i < |c| ==> c[i] == Candidate(boxes[i], scores[i], i)
  {
    seq(|scores|, i requires 0 <= i < |scores| => Candidate(boxes[i], scores[i], i))
  }

  /** A unit square; squares of different numbers do not meet. */
  function Square(k: int): Box { Box(2.0 * k as real, 0.0, 2.0 * k as real + 1.0, 1.0) }

  /** The geometry that shows a tie: the tied candidates on one square, the others each on their own. */
  function Crowded(scores: seq<real>, tied: real): (b: seq<Box>)
    ensures |b| == |scores|
    ensures forall i :: 0 <= i < |b| ==> b[i] == Square(if scores[i] == tied then -1 else i)
  {
    seq(|scores|, i requires 0 <= i < |scores| => Square(if scores[i] == tied then -1 else i))
  }

  lemma SquareIou(k: int, l: int)
    ensures Iou(Square(k), Square(l)) == if k == l then 1.0 else 0.0
  {
    var a, b := Square(k), Square(l);
    assert Area(a) == 1.0 && Area(b) == 1.0;
    if k == l {
      IouBounds(a, a);
    } else {
      assert OverlapWidth(a, b) == 0.0;
      assert Intersection(a, b) == 0.0;
    }
  }

  /** The first position of a score holds the first candidate of that score. */
  lemma {:induction false} FirstOf(s: seq<Candidate>, score: real) returns (p: nat)
    requires exists i :: 0 <= i < |s| && s[i].score == score
    ensures p < |s| && s[p].score == score && forall i :: 0 <= i < p ==> s[i].score != score
    ensures WithScore(s, score) != [] && WithScore(s, score)[0] == s[p]
  {
    if s[0].score == score {
      p := 0;
    } else {
      var i :| 0 <= i < |s| && s[i].score == score;
      assert s[1..][i - 1] == s[i];
      p := FirstOf(s[1..], score);
      p := p + 1;
    }
  }

  lemma {:induction false} SurvivorFrom(s: seq<Candidate>, threshold: real, n: nat, c: Candidate) returns (q: nat)
    requires n <= |s| && c in Survivors(s, threshold, n)
    ensures q < n && s[q] == c && Survives(s, threshold, q)
  {
    hide Iou, Survives;
    if c in Survivors(s, threshold, n - 1) {
      q := SurvivorFrom(s, threshold, n - 1, c);
    } else {
      q := n - 1;
    }
  }

  /** Every candidate of the tied score is on the shared square, every other one meets none of them. */
  ghost predicate OneCrowd(s: seq<Candidate>, tied: real, threshold: real) {
    forall a, b :: a in s && b in s && a.score == tied ==>
      if b.score == tied then Iou(a.box, b.box) >= threshold else Iou(b.box, a.box) < threshold
  }

  /** Of a crowd only the first survives. */
  lemma CrowdSurvivor(s: seq<Candidate>, tied: real, threshold: real, p: nat, c: Candidate)
    requires OneCrowd(s, tied, threshold) && p < |s| && s[p].score == tied
    requires forall i :: 0 <= i < p ==> s[i].score != tied
    requires c.score == tied
    ensures c in Survivors(s, threshold, |s|) <==> c == s[p]
  {
    hide Iou, Survivors;
    assert Survives(s, threshold, p) by {
      forall j | 0 <= j < p && Survives(s, threshold, j) ensures Iou(s[j].box, s[p].box) < threshold {
        assert s[j] in s && s[p] in s;
      }
    }
    SurvivorKept(s, threshold, |s|, p);
    if c in Survivors(s, threshold, |s|) {
      var q := SurvivorFrom(s, threshold, |s|, c);
      assert s[p] in s && s[q] in s;
      assert q == p;
    }
  }

  lemma CrowdedIsOneCrowd(scores: seq<real>, tied: real, threshold: real)
    requires 0.0 < threshold <= 1.0
    ensures OneCrowd(Placed(scores, Crowded(scores, tied)), tied, threshold)
  {
    var c := Placed(scores, Crowded(scores, tied));
    hide Iou, Square;
    forall a, b | a in c && b in c && a.score == tied
      ensures if b.score == tied then Iou(a.box, b.box) >= threshold else Iou(b.box, a.box) < threshold
    {
      var i :| 0 <= i < |c| && c[i] == a;
      var j :| 0 <= j < |c| && c[j] == b;
      SquareIou(-1, -1);
      SquareIou(j, -1);
    }
  }

  lemma OneCrowdPermutes(s: seq<Candidate>, t: seq<Candidate>, tied: real, threshold: real)
    requires multiset(s) == multiset(t) && OneCrowd(s, tied, threshold)
    ensures OneCrowd(t, tied, threshold)
  {
    hide Iou;
    forall a | a in t ensures a in s {
      assert a in multiset(s);
    }
  }

  /** What greedy suppression of a stable order keeps of a crowd: the first of the input. */
  lemma KeptOfCrowd(input: seq<Candidate>, tied: real, threshold: real, p: nat, c: Candidate)
    requires OneCrowd(input, tied, threshold) && p < |input| && input[p].score == tied
    requires forall i :: 0 <= i < p ==> input[i].score != tied
    requires c.score == tied
    ensures c in Greedy(SortDescending(input), threshold) <==> c == input[p]
  {
    var s := SortDescending(input);
    SortDescendingSpec(input);
    GreedyIsSurvivors(s, threshold);
    var m := FirstOf(input, tied);
    assert m == p;
    hide SortDescending, Greedy, Iou, Survivors, OneCrowd, WithScore;
    assert input[p] in multiset(s);
    var q := FirstOf(s, tied);
    OneCrowdPermutes(input, s, tied, threshold);
    CrowdSurvivor(s, tied, threshold, q, c);
  }

  /** Among tied candidates the first of the input and the first from its end differ. */
  lemma EndsDiffer(c: seq<Candidate>, i: nat, j: nat) returns (p: nat, q: nat)
    requires i < j < |c| && c[i].score == c[j].score && forall k :: 0 <= k < |c| ==> c[k].tag == k
    ensures p < |c| && c[p].score == c[i].score && forall k :: 0 <= k < p ==> c[k].score != c[i].score
    ensures var r := Reverse(c);
            && q < |r| && r[q].score == c[i].score && (forall k :: 0 <= k < q ==> r[k].score != c[i].score)
            && c[p] != r[q]
  {
    hide WithScore;
    var r, n := Reverse(c), |c|;
    p := FirstOf(c, c[i].score);
    assert r[n - 1 - j] == c[j];
    q := FirstOf(r, c[i].score);
    assert r[q] == c[n - 1 - q];
  }

  lemma CrowdSplits(c: seq<Candidate>, threshold: real, i: nat, j: nat)
    requires i < j < |c| && c[i].score == c[j].score && forall k :: 0 <= k < |c| ==> c[k].tag == k
    requires OneCrowd(c, c[i].score, threshold)
    ensures !SameKept(c, threshold)
  {
    hide *;
    var tied := c[i].score;
    var p, q := EndsDiffer(c, i, j);
    ReverseElements(c);
    OneCrowdPermutes(c, Reverse(c), tied, threshold);
    KeptOfCrowd(c, tied, threshold, p, c[p]);
    KeptOfCrowd(Reverse(c), tied, threshold, q, c[p]);
    KeptByOne(c, threshold, c[p]);
  }

  lemma KeptByOne(c: seq<Candidate>, threshold: real, one: Candidate)
    requires one in Greedy(SortDescending(c), threshold) && one !in Greedy(SortDescending(Reverse(c)), threshold)
    ensures !SameKept(c, threshold)
  {
    hide Greedy, SortDescending;
    assert one in multiset(EnergyKept(c, threshold)) && one !in multiset(ArmorKept(c, threshold));
  }

  /** If two candidates tie, some geometry makes the forms keep different ones. */
  lemma TieShows(scores: seq<real>, threshold: real, i: nat, j: nat)
    requires 0.0 < threshold <= 1.0 && i < j < |scores| && scores[i] == scores[j]
    ensures !SameKept(Placed(scores, Crowded(scores, scores[i])), threshold)
  {
    hide *;
    CrowdedIsOneCrowd(scores, scores[i], threshold);
    CrowdSplits(Placed(scores, Crowded(scores, scores[i])), threshold, i, j);
  }

  /** For given scores the forms keep the same candidates in every geometry exactly when no two scores are equal. */
  lemma SameInEveryGeometry(scores: seq<real>, threshold: real)
    requires 0.0 < threshold <= 1.0
    ensures (forall boxes: seq<Box> :: |boxes| == |scores| ==> SameKept(Placed(scores, boxes), threshold)) <==>
            forall i, j :: 0 <= i < j < |scores| ==> scores[i] != scores[j]
  {
    hide SameKept, Square;
    if i, j :| 0 <= i < j < |scores| && scores[i] == scores[j] {
      TieShows(scores, threshold, i, j);
    } else {
      forall boxes: seq<Box> | |boxes| == |scores| ensures SameKept(Placed(scores, boxes), threshold) {
        SameUnlessTiesOverlap(Placed(scores, boxes), threshold);
      }
    }
  }
}
