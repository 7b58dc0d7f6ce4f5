/**
 * Which enemy is selected and when the estimator allows fire, as functions of everything seen so
 * far, and the state machines that compute them one frame at a time.
 */
module TargetSelection {
  import opened Wrappers

  datatype EnemyId = Hero1 | Engineer2 | Infantry3 | Infantry4 | Infantry5 | Sentry7 | Outpost8

  const TRACKED: seq<EnemyId> := [Hero1, Engineer2, Infantry3, Infantry4, Infantry5, Sentry7, Outpost8]

  datatype Point = Point(x: real, y: real)

  /** The armor centers of each enemy seen; `None` for one that was looked for and not solved. */
  type Enemies = map<EnemyId, Option<seq<Point>>>

  /** One call: when, with what configuration, and what was seen. Times and durations are in nanoseconds. */
  datatype Frame = Frame(time: nat, wait: nat, center: Point, enemies: Enemies)

  predicate Visible(f: Frame, id: EnemyId) {
    id in f.enemies && f.enemies[id].Some?
  }

  function Distance2(a: Point, b: Point): real {
    (a.x - b.x) * (a.x - b.x) + (a.y - b.y) * (a.y - b.y)
  }

  function Least(scores: seq<real>): real
    requires scores != []
  {
    if |scores| == 1 then scores[0]
    else
      var rest := Least(scores[..|scores| - 1]);
      if scores[|scores| - 1] < rest then scores[|scores| - 1] else rest
  }

  function Scores(armors: seq<Point>, center: Point): (r: seq<real>)
    ensures |r| == |armors| && forall i :: 0 <= i < |r| ==> r[i] == Distance2(armors[i], center)
  {
    seq(|armors|, i requires 0 <= i < |armors| => Distance2(armors[i], center))
  }

  /** Squared distance of the enemy's nearest armor to the image center; a visible enemy may have none. */
  function Score(f: Frame, id: EnemyId): Option<real> {
    if !Visible(f, id) || f.enemies[id].value == [] then None
    else Some(Least(Scores(f.enemies[id].value, f.center)))
  }

  lemma {:induction false} LeastSpec(scores: seq<real>)
    requires scores != []
    ensures Least(scores) in scores && forall i :: 0 <= i < |scores| ==> Least(scores) <= scores[i]
  {
    if |scores| > 1 {
      LeastSpec(scores[..|scores| - 1]);
    }
  }

  ghost predicate DistanceIs(d: real, a: Point, center: Point) {
    d == (a.x - center.x) * (a.x - center.x) + (a.y - center.y) * (a.y - center.y)
  }

  lemma LeastDistance(armors: seq<Point>, center: Point)
    requires armors != []
    ensures var least := Least(Scores(armors, center));
            && (exists i :: 0 <= i < |armors| && DistanceIs(least, armors[i], center))
            && (forall i, d: real :: 0 <= i < |armors| && DistanceIs(d, armors[i], center) ==> least <= d)
  {
    var scores := Scores(armors, center);
    LeastSpec(scores);
    var k :| 0 <= k < |scores| && scores[k] == Least(scores);
    hide Least;
    assert DistanceIs(scores[k], armors[k], center);
    forall i, d: real | 0 <= i < |armors| && DistanceIs(d, armors[i], center)
      ensures Least(scores) <= d
    {
      assert scores[i] == d;
    }
  }

  /** The score is the least of the squared distances of the solved armors; without any there is none. */
  lemma ScoreSpec(f: Frame, id: EnemyId)
    ensures Score(f, id).Some? <==> id in f.enemies && f.enemies[id].Some? && f.enemies[id].value != []
    ensures Score(f, id).Some? ==>
              var armors, score := f.enemies[id].value, Score(f, id).value;
              && (exists i :: 0 <= i < |armors| && DistanceIs(score, armors[i], f.center))
              && (forall i, d: real :: 0 <= i < |armors| && DistanceIs(d, armors[i], f.center) ==> score <= d)
  {
    hide Least, Scores, DistanceIs;
    if Score(f, id).Some? {
      LeastDistance(f.enemies[id].value, f.center);
    }
  }

  // ----- specification over the history -----

  /** The closest scored enemy; of equally close ones the first in table order. */
  ghost predicate IsClosest(f: Frame, choice: Option<EnemyId>) {
    match choice
    case None => forall k :: 0 <= k < |TRACKED| ==> Score(f, TRACKED[k]).None?
    case Some(id) =>
      exists n :: 0 <= n < |TRACKED| && TRACKED[n] == id && FirstLeast(f, n)
  }

  ghost predicate FirstLeast(f: Frame, n: nat)
    requires n < |TRACKED|
  {
    && Score(f, TRACKED[n]).Some?
    && (forall k :: 0 <= k < |TRACKED| && Score(f, TRACKED[k]).Some? ==>
          Score(f, TRACKED[n]).value <= Score(f, TRACKED[k]).value)
    && (forall k :: 0 <= k < n && Score(f, TRACKED[k]).Some? ==>
          Score(f, TRACKED[n]).value < Score(f, TRACKED[k]).value)
  }

  /** Where the enemy's current run of invisible frames began; past the end if it is visible now. */
  ghost function GapStart(h: seq<Frame>, id: EnemyId): (g: nat)
    ensures g <= |h|
    ensures forall i :: g <= i < |h| ==> !Visible(h[i], id)
    ensures g > 0 ==> Visible(h[g - 1], id)
  {
    if h == [] || Visible(h[|h| - 1], id) then |h| else GapStart(h[..|h| - 1], id)
  }

  /** The selected enemy stays until one of its gaps has lasted longer than the wait. */
  ghost predicate Overdue(h: seq<Frame>, id: EnemyId)
    requires h != []
  {
    var g := GapStart(h, id);
    g < |h| && h[|h| - 1].time - h[g].time > h[|h| - 1].wait
  }

  ghost predicate Continues(h: seq<Frame>, before: Option<EnemyId>, choice: Option<EnemyId>)
    requires h != []
  {
    if before.Some? && !Overdue(h, before.value) then choice == before else IsClosest(h[|h| - 1], choice)
  }

  function Before(choices: seq<Option<EnemyId>>, i: nat): Option<EnemyId>
    requires i <= |choices|
  {
    if i == 0 then None else choices[i - 1]
  }

  ghost predicate Selects(h: seq<Frame>, choices: seq<Option<EnemyId>>) {
    && |choices| == |h|
    && forall i :: 0 <= i < |h| ==> Continues(h[..i + 1], Before(choices, i), choices[i])
  }

  // ----- the selector -----

  datatype SelectState = Idle | Locked(id: EnemyId) | Lost(id: EnemyId, since: nat)

  function Selected(state: SelectState): Option<EnemyId> {
    if state.Idle? then None else Some(state.id)
  }

  function Lock(choice: Option<EnemyId>): SelectState {
    if choice.Some? then Locked(choice.value) else Idle
  }

  function NextState(state: SelectState, f: Frame, closest: Option<EnemyId>): SelectState {
    match state
    case Idle => Lock(closest)
    case Locked(id) => if Visible(f, id) then state else Lost(id, f.time)
    case Lost(id, since) =>
      if Visible(f, id) then Locked(id) else if f.time - since <= f.wait then state else Lock(closest)
  }

  /** A locked enemy was seen in the last frame; a lost one since its current gap began. */
  ghost predicate Tracks(state: SelectState, h: seq<Frame>) {
    && (state.Locked? ==> h != [] && Visible(h[|h| - 1], state.id))
    && (state.Lost? ==> GapStart(h, state.id) < |h| && state.since == h[GapStart(h, state.id)].time)
  }

  /** An invisible frame continues the gap, a visible one ends it. */
  lemma GapExtends(h: seq<Frame>, f: Frame, id: EnemyId)
    ensures GapStart(h + [f], id) == if Visible(f, id) then |h| + 1 else GapStart(h, id)
  {
  }

  lemma NextTracks(state: SelectState, h: seq<Frame>, f: Frame, closest: Option<EnemyId>)
    requires Tracks(state, h) && (closest.Some? ==> Visible(f, closest.value))
    ensures Tracks(NextState(state, f, closest), h + [f])
  {
  }

  lemma NextContinues(state: SelectState, h: seq<Frame>, f: Frame, closest: Option<EnemyId>)
    requires Tracks(state, h) && IsClosest(f, closest)
    ensures Continues(h + [f], Selected(state), Selected(NextState(state, f, closest)))
  {
    hide IsClosest;
    if !state.Idle? {
      GapExtends(h, f, state.id);
    }
  }

  class EnemySelectHandler {
    var state: SelectState
    var imageCenter: Point
    ghost var history: seq<Frame>
    ghost var choices: seq<Option<EnemyId>>

    ghost predicate Valid()
      reads this
    {
      Selects(history, choices) && Tracks(state, history) && Selected(state) == Before(choices, |choices|)
    }

    constructor ()
      ensures Valid() && history == [] && choices == []
    {
      state, imageCenter := Idle, Point(320.0, 192.0);
      history, choices := [], [];
    }

    method ClosestVisibleEnemy(f: Frame) returns (choice: Option<EnemyId>)
      requires f.center == imageCenter
      ensures IsClosest(f, choice)
      ensures choice.Some? ==> Visible(f, choice.value)
    {
      var best: Option<(nat, real)> := None;
      for k := 0 to |TRACKED|
        invariant best.None? ==> forall j :: 0 <= j < k ==> Score(f, TRACKED[j]).None?
        invariant best.Some? ==>
                    && best.value.0 < k && Score(f, TRACKED[best.value.0]) == Some(best.value.1)
                    && (forall j :: 0 <= j < k && Score(f, TRACKED[j]).Some? ==>
                          best.value.1 <= Score(f, TRACKED[j]).value)
                    && (forall j :: 0 <= j < best.value.0 && Score(f, TRACKED[j]).Some? ==>
                          best.value.1 < Score(f, TRACKED[j]).value)
      {
        var score := Score(f, TRACKED[k]);
        if score.Some? && (best.None? || score.value < best.value.1) {
          best := Some((k, score.value));
        }
      }
      choice := if best.None? then None else Some(TRACKED[best.value.0]);
      if best.Some? {
        assert FirstLeast(f, best.value.0);
      }
    }

    method Select(f: Frame) returns (choice: Option<EnemyId>)
      requires Valid()
      modifies this
      ensures Valid() && choice == Selected(state)
      ensures history == old(history) + [f] && choices == old(choices) + [choice]
    {
      hide IsClosest, Continues, Tracks;
      imageCenter := f.center;
      var closest := ClosestVisibleEnemy(f);
      NextTracks(state, history, f, closest);
      NextContinues(state, history, f, closest);
      match state {
        case Idle =>
          state := Lock(closest);
        case Locked(id) =>
          if !Visible(f, id) {
            state := Lost(id, f.time);
          }
        case Lost(id, since) =>
          if Visible(f, id) {
            state := Locked(id);
          } else if f.time - since > f.wait {
            state := Lock(closest);
          }
      }
      choice := Selected(state);
      SelectsExtends(history, choices, f, choice);
      history, choices := history + [f], choices + [choice];
    }
  }

  lemma SelectsExtends(h: seq<Frame>, choices: seq<Option<EnemyId>>, f: Frame, choice: Option<EnemyId>)
    requires Selects(h, choices) && Continues(h + [f], Before(choices, |choices|), choice)
    ensures Selects(h + [f], choices + [choice])
  {
    hide Continues;
    var h', choices' := h + [f], choices + [choice];
    forall i | 0 <= i < |h'| ensures Continues(h'[..i + 1], Before(choices', i), choices'[i]) {
      if i < |h| {
        assert h'[..i + 1] == h[..i + 1];
      } else {
        assert h'[..i + 1] == h';
      }
    }
  }

  /** A choice that differs from the one before is the closest enemy of that frame. */
  lemma NewChoiceIsClosest(h: seq<Frame>, choices: seq<Option<EnemyId>>, i: nat)
    requires Selects(h, choices) && |choices| == |h| && i < |h| && choices[i] != Before(choices, i)
    ensures IsClosest(h[i], choices[i])
  {
    hide IsClosest;
    assert Continues(h[..i + 1], Before(choices, i), choices[i]);
  }

  /** When the selection leaves an enemy, that enemy was invisible in every frame of a gap longer than the wait. */
  lemma LeavesOnlyAfterGap(h: seq<Frame>, choices: seq<Option<EnemyId>>, i: nat)
    requires Selects(h, choices) && |choices| == |h|
    requires 0 < i < |h| && choices[i - 1].Some? && choices[i] != choices[i - 1]
    ensures exists g :: 0 <= g <= i && h[i].time - h[g].time > h[i].wait
                        && forall k :: g <= k <= i ==> !Visible(h[k], choices[i - 1].value)
  {
    var id := choices[i - 1].value;
    assert Continues(h[..i + 1], Before(choices, i), choices[i]);
    assert Overdue(h[..i + 1], id);
    var g := GapStart(h[..i + 1], id);
    assert forall k :: g <= k <= i ==> h[..i + 1][k] == h[k];
  }

  /** The enemy's gap that began at g is still on at i and has lasted longer than the wait. */
  ghost predicate LongGap(h: seq<Frame>, id: EnemyId, g: nat, i: nat) {
    && g <= i < |h| && h[i].time - h[g].time > h[i].wait
    && (forall k :: g <= k <= i ==> id !in h[k].enemies || h[k].enemies[id].None?)
    && (g > 0 ==> id in h[g - 1].enemies && h[g - 1].enemies[id].Some?)
  }

  /** An enemy once selected stays so until such a gap, and then the closest one of that frame is selected. */
  lemma StaysUnlessGap(h: seq<Frame>, choices: seq<Option<EnemyId>>, i: nat, id: EnemyId)
    requires Selects(h, choices) && |choices| == |h| && 0 < i < |h| && choices[i - 1] == Some(id)
    ensures if exists g: nat :: LongGap(h, id, g, i) then IsClosest(h[i], choices[i]) else choices[i] == Some(id)
  {
    hide IsClosest;
    assert Continues(h[..i + 1], Before(choices, i), choices[i]);
    var start := GapStart(h[..i + 1], id);
    if Overdue(h[..i + 1], id) {
      assert forall k :: start <= k <= i ==> h[..i + 1][k] == h[k];
      assert LongGap(h, id, start, i);
    }
    forall g: nat | LongGap(h, id, g, i)
      ensures start == g
    {
      assert forall k :: 0 <= k <= i ==> h[..i + 1][k] == h[k];
      assert start > 0 ==> Visible(h[start - 1], id);
    }
  }

  /** The enemy was invisible in the frames from g to i, none before n, and that lasted longer than the wait. */
  ghost predicate OverdueGap(h: seq<Frame>, id: EnemyId, n: nat, g: nat, i: nat) {
    n <= g <= i < |h| && h[i].time - h[g].time > h[i].wait && forall k :: g <= k <= i ==> !Visible(h[k], id)
  }

  /** Between a frame that selected and saw an enemy and one that selects another there is such a gap. */
  lemma SwitchNeedsGap(h: seq<Frame>, choices: seq<Option<EnemyId>>, a: EnemyId, n: nat, m: nat)
    requires Selects(h, choices) && |choices| == |h| && 0 < n < m <= |h|
    requires choices[n - 1] == Some(a) && Visible(h[n - 1], a) && choices[m - 1] != Some(a)
    ensures exists g: nat, i: nat :: OverdueGap(h, a, n, g, i) && i < m
  {
    hide Selects, Visible;
    var i := FirstChange(choices, n, m, a);
    LeavesOnlyAfterGap(h, choices, i);
    var g :| 0 <= g <= i && h[i].time - h[g].time > h[i].wait && forall k :: g <= k <= i ==> !Visible(h[k], a);
    assert g >= n;
    assert OverdueGap(h, a, n, g, i);
  }

  /** The first frame from n on in which another choice is made. */
  lemma FirstChange(choices: seq<Option<EnemyId>>, n: nat, m: nat, a: EnemyId) returns (i: nat)
    requires 0 < n < m <= |choices| && choices[n - 1] == Some(a) && choices[m - 1] != Some(a)
    ensures n <= i < m && choices[i - 1] == Some(a) && choices[i] != Some(a)
  {
    i := n;
    while choices[i] == Some(a)
      invariant n <= i < m && choices[i - 1] == Some(a)
      decreases m - i
    {
      i := i + 1;
    }
  }

  /** The choices are determined by the history: two runs over the same frames select alike. */
  lemma {:induction false} SelectsUnique(h: seq<Frame>, a: seq<Option<EnemyId>>, b: seq<Option<EnemyId>>, n: nat)
    requires Selects(h, a) && Selects(h, b) && n <= |h|
    ensures a[..n] == b[..n]
  {
    hide IsClosest, Overdue;
    if n == 0 {
    } else {
      SelectsUnique(h, a, b, n - 1);
      assert Before(a, n - 1) == Before(b, n - 1) by {
        assert n > 1 ==> a[n - 2] == a[..n - 1][n - 2] && b[n - 2] == b[..n - 1][n - 2];
      }
      assert Continues(h[..n], Before(a, n - 1), a[n - 1]) && Continues(h[..n], Before(b, n - 1), b[n - 1]);
      ClosestUnique(h[n - 1], a[n - 1], b[n - 1]);
      assert a[..n] == a[..n - 1] + [a[n - 1]] && b[..n] == b[..n - 1] + [b[n - 1]];
    }
  }

  lemma ClosestUnique(f: Frame, a: Option<EnemyId>, b: Option<EnemyId>)
    ensures IsClosest(f, a) && IsClosest(f, b) ==> a == b
  {
  }
}

/** When an estimator allows fire, and which observations its color filter lets through. */
module FirePermission {
  import opened Wrappers

  /** The armors of one solved observation: whether each is of neutral color. */
  type Armors = seq<bool>

  datatype Observation = Observation(time: nat, lostWait: nat, grace: nat, armors: Option<Armors>)

  datatype MachineState = Init | Sleep | WakeUp | Track | Lost(since: nat) | Recovery

  predicate NeutralPrimary(armors: Armors) { armors != [] && armors[0] }

  // ----- specification over the history -----

  /** How many neutral observations were let through in a row up to now. */
  function NeutralRun(h: seq<Observation>): nat
    decreases |h|, 0
  {
    if h == [] || !Passes(h) then 0
    else
      var armors := h[|h| - 1].armors.value;
      var before := NeutralRun(h[..|h| - 1]);
      if armors == [] then before else if armors[0] then before + 1 else 0
  }

  /** The last observation is there and is not one neutral armor too many. */
  predicate Passes(h: seq<Observation>)
    requires h != []
    decreases |h| - 1, 1
  {
    var o := h[|h| - 1];
    o.armors.Some? && !(NeutralPrimary(o.armors.value) && NeutralRun(h[..|h| - 1]) >= o.grace)
  }

  predicate PassedTwice(h: seq<Observation>) {
    |h| >= 2 && Passes(h) && Passes(h[..|h| - 1])
  }

  // ----- the estimator -----

  function NextState(s: MachineState, seen: bool, o: Observation): MachineState {
    match s
    case Init => if seen then WakeUp else Sleep
    case Sleep => if seen then WakeUp else Sleep
    case WakeUp => if seen then Track else Lost(o.time)
    case Track => if seen then Track else Lost(o.time)
    case Lost(since) => if seen then Recovery else if o.time - since > o.lostWait then Sleep else s
    case Recovery => if seen then Track else Lost(o.time)
  }

  class Estimator {
    var state: MachineState
    var fire: bool
    var severalArmors: bool
    var neutralFrames: nat
    ghost var history: seq<Observation>

    ghost predicate Valid()
      reads this
    {
      && (state == Init <==> history == [])
      && neutralFrames == NeutralRun(history)
      && (history != [] ==>
            && (Passes(history) <==> state in {WakeUp, Track, Recovery})
            && (state == Track <==> PassedTwice(history)))
      && fire == PassedTwice(history)
    }

    constructor ()
      ensures Valid() && history == [] && !fire
    {
      state, fire, severalArmors, neutralFrames := Init, false, false, 0;
      history := [];
    }

    method FilterNeutral(o: Observation) returns (armors: Option<Armors>)
      requires Valid()
      modifies this`neutralFrames
      ensures armors == if Passes(history + [o]) then o.armors else None
      ensures neutralFrames == if o.armors.None? then 0 else old(neutralFrames)
    {
      assert (history + [o])[..|history|] == history;
      if o.armors.None? {
        neutralFrames := 0;
        return None;
      }
      if NeutralPrimary(o.armors.value) && neutralFrames >= o.grace {
        return None;
      }
      return o.armors;
    }

    /** Fire is allowed exactly when the last two observations both got through the filter. */
    method Update(o: Observation)
      requires Valid()
      modifies this
      ensures Valid() && history == old(history) + [o]
      ensures fire == PassedTwice(history)
      ensures severalArmors == (Passes(history) && |o.armors.value| > 1)
    {
      ghost var h := history + [o];
      assert h[..|history|] == history;
      var armors := FilterNeutral(o);
      state := NextState(state, armors.Some?, o);
      if state == Init || state == Sleep {
        neutralFrames := 0;
      }
      fire := state == Track;
      severalArmors := armors.Some? && |armors.value| > 1;
      if armors.Some? && armors.value != [] {
        neutralFrames := if armors.value[0] then neutralFrames + 1 else 0;
      }
      if armors.None? {
        neutralFrames := 0;
      }
      history := h;
    }
  }

  /** The observation is there and does not show another color first. */
  ghost predicate NotColored(o: Observation) {
    o.armors.Some? && (o.armors.value == [] || o.armors.value[0])
  }

  lemma {:induction false} RunIsNotColored(h: seq<Observation>)
    ensures NeutralRun(h) <= |h| && forall i :: |h| - NeutralRun(h) <= i < |h| ==> NotColored(h[i])
  {
    if h != [] && Passes(h) {
      RunIsNotColored(h[..|h| - 1]);
    }
  }

  /**
   * What was seen is dropped only if a neutral armor comes first and at least `grace` observations
   * in a row before it were neutral or empty; what was not seen never passes.
   */
  lemma DropNeedsNeutralRun(h: seq<Observation>)
    requires h != []
    ensures var o := h[|h| - 1];
            !Passes(h) ==>
              || o.armors.None?
              || (&& o.armors.value != [] && o.armors.value[0] && |h| > o.grace
                  && forall i :: |h| - 1 - o.grace <= i < |h| ==> NotColored(h[i]))
    ensures h[|h| - 1].armors.None? ==> !Passes(h)
  {
    RunIsNotColored(h[..|h| - 1]);
  }

  /**
   * A target that shows only a neutral armor is let through `grace` times and then dropped once,
   * over and over: the drop itself resets the count.
   */
  lemma {:induction false} NeutralCycle(h: seq<Observation>, grace: nat, n: nat)
    requires n <= |h|
    requires forall i :: 0 <= i < |h| ==> h[i].armors == Some([true]) && h[i].grace == grace
    ensures NeutralRun(h[..n]) == n % (grace + 1)
    ensures n > 0 ==> (Passes(h[..n]) <==> n % (grace + 1) != 0)
  {
    if n == 0 {
    } else {
      NeutralCycle(h, grace, n - 1);
      assert h[..n][..n - 1] == h[..n - 1] && h[..n][n - 1] == h[n - 1];
      NextRemainder(n - 1, grace + 1);
    }
  }

  lemma NextRemainder(n: nat, m: nat)
    requires m > 0
    ensures (n + 1) % m == if n % m + 1 == m then 0 else n % m + 1
  {
    var q, r := n / m, n % m;
    assert n == q * m + r;
    if r + 1 == m {
      assert n + 1 == (q + 1) * m;
      Remainder(n + 1, q + 1, 0, m);
    } else {
      Remainder(n + 1, q, r + 1, m);
    }
  }

  lemma Remainder(n: nat, q: nat, r: nat, m: nat)
    requires m > 0 && r < m && n == q * m + r
    ensures n % m == r
  {
    var d := n / m - q;
    assert d * m == r - n % m;
    TimesAtLeast(d, m);
  }

  lemma TimesAtLeast(d: int, m: nat)
    ensures (d >= 1 ==> d * m >= m) && (d <= -1 ==> d * m <= 0 - m)
  {
  }
}

/** All estimators behind one selector: only the selected enemy's estimator is shown anything. */
module HandlerPoll {
  import opened Wrappers
  import opened TargetSelection
  import opened FirePermission

  /**
   * One frame for the whole poll. `matched` stands for the armors an enemy's estimator is given when
   * the enemy is visible: matching them to the current target is not part of this model.
   */
  datatype PollFrame = PollFrame(frame: Frame, lostWait: nat, grace: nat, matched: EnemyId -> Armors)

  type Choices = seq<Option<EnemyId>>

  function ObservationOf(p: PollFrame, choice: Option<EnemyId>, id: EnemyId): Observation {
    Observation(p.frame.time, p.lostWait, p.grace,
                if choice == Some(id) && Visible(p.frame, id) then Some(p.matched(id)) else None)
  }

  /** What one enemy's estimator has been shown so far. */
  function Shown(h: seq<PollFrame>, choices: Choices, id: EnemyId): (o: seq<Observation>)
    requires |h| == |choices|
    ensures |o| == |h| && forall i :: 0 <= i < |h| ==> o[i] == ObservationOf(h[i], choices[i], id)
  {
    seq(|h|, i requires 0 <= i < |h| => ObservationOf(h[i], choices[i], id))
  }

  function Frames(h: seq<PollFrame>): (f: seq<Frame>)
    ensures |f| == |h| && forall i :: 0 <= i < |h| ==> f[i] == h[i].frame
  {
    seq(|h|, i requires 0 <= i < |h| => h[i].frame)
  }

  lemma ShownExtends(h: seq<PollFrame>, choices: Choices, p: PollFrame, choice: Option<EnemyId>, id: EnemyId)
    requires |h| == |choices|
    ensures Shown(h + [p], choices + [choice], id) == Shown(h, choices, id) + [ObservationOf(p, choice, id)]
    ensures Frames(h + [p]) == Frames(h) + [p.frame]
  {
  }

  lemma TrackedIsEverybody(id: EnemyId)
    ensures id in TRACKED
  {
    assert TRACKED[0] == Hero1 && TRACKED[1] == Engineer2 && TRACKED[2] == Infantry3 && TRACKED[3] == Infantry4;
    assert TRACKED[4] == Infantry5 && TRACKED[5] == Sentry7 && TRACKED[6] == Outpost8;
  }

  ghost predicate Once(ids: seq<EnemyId>) {
    forall j, k :: 0 <= j < k < |ids| ==> ids[j] != ids[k]
  }

  lemma TrackedOnce()
    ensures Once(TRACKED)
  {
  }

  /** Fire needs the enemy to be the selected one and visible in each of the last two frames. */
  lemma FireNeedsSelection(h: seq<PollFrame>, choices: Choices, id: EnemyId)
    requires |h| == |choices| && PassedTwice(Shown(h, choices, id))
    ensures |h| >= 2
    ensures forall i :: |h| - 2 <= i < |h| ==> choices[i] == Some(id) && Visible(h[i].frame, id)
  {
    var o, n := Shown(h, choices, id), |h|;
    assert o[..n - 1][n - 2] == o[n - 2];
  }

  /**
   * Fire never jumps between enemies: after it was allowed on `a` and before it is allowed on `b`,
   * `a` was invisible in every frame of a gap longer than the wait.
   */
  lemma FireSwitchNeedsGap(h: seq<PollFrame>, choices: Choices, a: EnemyId, b: EnemyId, n: nat, m: nat)
    requires Selects(Frames(h), choices) && |choices| == |h| && n < m <= |h| && a != b
    requires PassedTwice(Shown(h[..n], choices[..n], a)) && PassedTwice(Shown(h[..m], choices[..m], b))
    ensures exists g: nat, i: nat :: OverdueGap(Frames(h), a, n, g, i) && i < m
  {
    FiredAt(h, choices, a, n);
    FiredAt(h, choices, b, m);
    hide *;
    SwitchNeedsGap(Frames(h), choices, a, n, m);
  }

  lemma FiredAt(h: seq<PollFrame>, choices: Choices, id: EnemyId, n: nat)
    requires |h| == |choices| && n <= |h| && PassedTwice(Shown(h[..n], choices[..n], id))
    ensures n >= 2 && choices[n - 1] == Some(id) && Visible(Frames(h)[n - 1], id)
  {
    FireNeedsSelection(h[..n], choices[..n], id);
    assert choices[..n][n - 1] == choices[n - 1] && h[..n][n - 1] == h[n - 1];
  }

  class RbtHandlerPoll {
    const estimators: map<EnemyId, Estimator>
    const selector: EnemySelectHandler
    ghost var frames: seq<PollFrame>

    ghost predicate Valid()
      reads this, selector, estimators.Values
    {
      && Distinct(estimators) && selector.Valid() && selector.history == Frames(frames)
      && |frames| == |selector.choices| && UpToDate(estimators, frames, selector.choices)
    }

    constructor ()
      ensures Valid() && frames == []
    {
      var all := MakeEstimators();
      var select := new EnemySelectHandler();
      estimators, selector, frames := all, select, [];
    }

    /** Afterwards an estimator that allows fire is the selected enemy's, so there is at most one. */
    method Update(p: PollFrame)
      requires Valid()
      modifies this, selector, estimators.Values
      ensures Valid() && frames == old(frames) + [p]
      ensures forall id :: id in estimators ==> estimators[id].fire == PassedTwice(Shown(frames, selector.choices, id))
      ensures forall id :: id in estimators && estimators[id].fire ==>
          Selected(selector.state) == Some(id) && Visible(p.frame, id)
    {
      hide Selects, Tracks, Before, PassedTwice, Passes, NeutralRun, ObservationOf, Visible, Shown;
      ghost var h, c := frames, selector.choices;
      var choice := selector.Select(p.frame);
      frames := frames + [p];
      ShownExtends(h, c, p, choice, Hero1);
      TrackedOnce();
      ShowEach(estimators, TRACKED, p, choice);
      ShowedEach(estimators, p, choice, h, c);
      Permitted(estimators, frames, selector.choices, choice);
    }
  }

  ghost predicate Distinct(estimators: map<EnemyId, Estimator>) {
    && (forall id: EnemyId :: id in estimators)
    && (forall a, b :: a in estimators && b in estimators && a != b ==> estimators[a] != estimators[b])
  }

  /** Every estimator is in order and was shown just what the choices say. */
  ghost predicate UpToDate(estimators: map<EnemyId, Estimator>, h: seq<PollFrame>, choices: Choices)
    requires |h| == |choices|
    reads estimators.Values
  {
    forall id :: id in estimators ==> estimators[id].Valid() && estimators[id].history == Shown(h, choices, id)
  }

  /** Shows each listed estimator, in turn, what the choice lets it see. */
  method ShowEach(estimators: map<EnemyId, Estimator>, ids: seq<EnemyId>, p: PollFrame, choice: Option<EnemyId>)
    requires Distinct(estimators) && Once(ids)
    requires forall id :: id in estimators ==> estimators[id].Valid()
    modifies estimators.Values
    ensures forall id :: id in estimators ==> estimators[id].Valid()
    ensures forall id :: id in ids ==>
              estimators[id].history == old(estimators[id].history) + [ObservationOf(p, choice, id)]
  {
    hide ObservationOf, PassedTwice, Passes, NeutralRun;
    for k := 0 to |ids|
      invariant forall id :: id in estimators ==> estimators[id].Valid()
      invariant forall j :: 0 <= j < k ==>
                  estimators[ids[j]].history == old(estimators[ids[j]].history) + [ObservationOf(p, choice, ids[j])]
      invariant forall j :: k <= j < |ids| ==> estimators[ids[j]].history == old(estimators[ids[j]].history)
    {
      estimators[ids[k]].Update(ObservationOf(p, choice, ids[k]));
    }
  }

  lemma ShowedEach(estimators: map<EnemyId, Estimator>, p: PollFrame, choice: Option<EnemyId>, h: seq<PollFrame>,
                   c: Choices)
    requires |h| == |c| && Distinct(estimators)
    requires forall id :: id in estimators ==> estimators[id].Valid()
    requires forall id :: id in TRACKED ==> estimators[id].history == Shown(h, c, id) + [ObservationOf(p, choice, id)]
    ensures UpToDate(estimators, h + [p], c + [choice])
  {
    hide PassedTwice, ObservationOf, Visible, Passes, NeutralRun;
    forall id | id in estimators ensures estimators[id].history == Shown(h + [p], c + [choice], id) {
      TrackedIsEverybody(id);
      ShownExtends(h, c, p, choice, id);
    }
  }

  lemma Permitted(estimators: map<EnemyId, Estimator>, h: seq<PollFrame>, choices: Choices, choice: Option<EnemyId>)
    requires |h| == |choices| > 0 && UpToDate(estimators, h, choices) && choices[|h| - 1] == choice
    ensures forall id :: id in estimators ==> estimators[id].fire == PassedTwice(Shown(h, choices, id))
    ensures forall id :: id in estimators && estimators[id].fire ==> choice == Some(id) && Visible(h[|h| - 1].frame, id)
  {
    hide PassedTwice, Visible;
    forall id | id in estimators && estimators[id].fire ensures choice == Some(id) && Visible(h[|h| - 1].frame, id) {
      FireNeedsSelection(h, choices, id);
    }
  }

  method MakeEstimators() returns (all: map<EnemyId, Estimator>)
    ensures forall id: EnemyId :: id in all
    ensures forall id :: id in all ==> fresh(all[id]) && all[id].Valid() && all[id].history == []
    ensures forall a, b :: a in all && b in all && a != b ==> all[a] != all[b]
  {
    all := map[];
    for k := 0 to |TRACKED|
      invariant forall id :: id in all <==> id in TRACKED[..k]
      invariant forall id :: id in all ==> fresh(all[id]) && all[id].Valid() && all[id].history == []
      invariant forall a, b :: a in all && b in all && a != b ==> all[a] != all[b]
    {
      var e := new Estimator();
      all := all[TRACKED[k] := e];
    }
    forall id: EnemyId ensures id in all {
      TrackedIsEverybody(id);
    }
  }
}
