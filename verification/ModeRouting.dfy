/** Which vision route the task mode selects, and the sequence number that counts route changes. */
module ModeRouting {
  import opened Wrappers

  const U64_MAX: nat := 0xFFFF_FFFF_FFFF_FFFF

  datatype TaskMode = AutoShot | HitBigBuff | HitSmallBuff | HitOutpost

  datatype Route = AutoShotRoute | EnergyMechanismRoute | OutpostRoute

  function RouteOf(mode: TaskMode): Route {
    match mode
    case AutoShot => AutoShotRoute
    case HitBigBuff | HitSmallBuff => EnergyMechanismRoute
    case HitOutpost => OutpostRoute
  }

  predicate ArmorActive(route: Route) { route != EnergyMechanismRoute }

  /** Two modes share a route exactly when they are the same or both about the energy mechanism. */
  lemma RoutesApart(a: TaskMode, b: TaskMode)
    ensures RouteOf(a) == RouteOf(b) <==> a == b || {a, b} == {HitBigBuff, HitSmallBuff}
  {
    if a != b {
      assert a in {a, b} && b in {a, b};
    }
  }

  datatype Transition = Unchanged | EnterAutoShot | EnterEnergyMechanism | EnterOutpost

  datatype Feedback = Feedback(taskMode: TaskMode, rawTaskMode: nat, mappedTaskMode: TaskMode)

  function WireValue(mode: TaskMode): nat {
    match mode case AutoShot => 1 case HitBigBuff => 2 case HitSmallBuff => 3 case HitOutpost => 4
  }

  datatype Update = Update(transition: Transition, previous: Option<TaskMode>, taskMode: TaskMode, rawTaskMode: nat,
                           route: Route, clearQueues: bool, transitionSeq: nat)

  function Saturated(n: nat): nat { if n < U64_MAX then n else U64_MAX }

  /** How often the route changes along the modes, starting from an active route or none. */
  function Changes(active: Option<Route>, modes: seq<TaskMode>): nat
    decreases |modes|
  {
    if modes == [] then 0
    else (if active == Some(RouteOf(modes[0])) then 0 else 1) + Changes(Some(RouteOf(modes[0])), modes[1..])
  }

  lemma {:induction false} ChangesExtend(active: Option<Route>, modes: seq<TaskMode>, mode: TaskMode)
    ensures var last := if modes == [] then active else Some(RouteOf(modes[|modes| - 1]));
            Changes(active, modes + [mode]) == Changes(active, modes) + if last == Some(RouteOf(mode)) then 0 else 1
    decreases |modes|
  {
    if modes == [] {
      var now := Some(RouteOf(mode));
      assert Changes(active, [mode]) == (if active == now then 0 else 1) + Changes(now, []);
    } else {
      ChangesExtend(Some(RouteOf(modes[0])), modes[1..], mode);
      assert (modes + [mode])[1..] == modes[1..] + [mode];
    }
  }

  class ModeContext {
    var currentTaskMode: Option<TaskMode>
    var activeRoute: Option<Route>
    var latestRawTaskMode: nat
    var latestMappedTaskMode: Option<TaskMode>
    var transitionSeq: nat
    ghost var initial: Option<TaskMode>
    ghost var modes: seq<TaskMode>   // every mode applied so far

    /** The sequence number is the number of route changes over the whole run, saturating. */
    ghost predicate Valid()
      reads this
    {
      var start := if initial.None? then None else Some(RouteOf(initial.value));
      && currentTaskMode == (if modes == [] then initial else Some(modes[|modes| - 1]))
      && activeRoute == (if currentTaskMode.None? then None else Some(RouteOf(currentTaskMode.value)))
      && transitionSeq == Saturated(Changes(start, modes))
    }

    constructor (initialTaskMode: Option<TaskMode>)
      ensures Valid() && initial == initialTaskMode && modes == [] && transitionSeq == 0
    {
      currentTaskMode := initialTaskMode;
      activeRoute := if initialTaskMode.None? then None else Some(RouteOf(initialTaskMode.value));
      latestRawTaskMode := if initialTaskMode.None? then 0 else WireValue(initialTaskMode.value);
      latestMappedTaskMode := initialTaskMode;
      transitionSeq := 0;
      initial, modes := initialTaskMode, [];
    }

    method ApplyFeedback(feedback: Feedback) returns (update: Update)
      requires Valid()
      modifies this
      ensures Valid() && initial == old(initial) && modes == old(modes) + [feedback.taskMode]
      ensures update.transition.Unchanged? <==> old(activeRoute) == Some(RouteOf(feedback.taskMode))
      ensures update.clearQueues <==> !update.transition.Unchanged?
      ensures update.route == RouteOf(feedback.taskMode) && activeRoute == Some(update.route)
      ensures update.route.EnergyMechanismRoute? <==> feedback.taskMode in {HitBigBuff, HitSmallBuff}
      ensures update.route.OutpostRoute? <==> feedback.taskMode == HitOutpost
      ensures !update.transition.Unchanged? ==>
                match feedback.taskMode
                case AutoShot => update.transition.EnterAutoShot?
                case HitBigBuff | HitSmallBuff => update.transition.EnterEnergyMechanism?
                case HitOutpost => update.transition.EnterOutpost?
      ensures update.previous == old(currentTaskMode) && currentTaskMode == Some(feedback.taskMode)
      ensures transitionSeq == update.transitionSeq
      ensures transitionSeq ==
              if update.transition.Unchanged? then old(transitionSeq) else Saturated(old(transitionSeq) + 1)
      ensures latestRawTaskMode == update.rawTaskMode
      ensures latestRawTaskMode ==
              if feedback.rawTaskMode == 0 then WireValue(feedback.taskMode) else feedback.rawTaskMode
      ensures latestMappedTaskMode == Some(feedback.mappedTaskMode)
    {
      hide Changes, WireValue;
      var route := RouteOf(feedback.taskMode);
      var previous := currentTaskMode;
      var transition;
      if activeRoute == Some(route) {
        transition := Unchanged;
      } else {
        match route
        case AutoShotRoute => transition := EnterAutoShot;
        case EnergyMechanismRoute => transition := EnterEnergyMechanism;
        case OutpostRoute => transition := EnterOutpost;
      }
      ChangesExtend(if initial.None? then None else Some(RouteOf(initial.value)), modes, feedback.taskMode);
      if transition != Unchanged {
        activeRoute := Some(route);
        transitionSeq := Saturated(transitionSeq + 1);
      }
      currentTaskMode := Some(feedback.taskMode);
      latestRawTaskMode := if feedback.rawTaskMode == 0 then WireValue(feedback.taskMode) else feedback.rawTaskMode;
      latestMappedTaskMode := Some(feedback.mappedTaskMode);
      modes := modes + [feedback.taskMode];
      update := Update(transition, previous, feedback.taskMode, latestRawTaskMode, route, transition != Unchanged,
                       transitionSeq);
    }
  }
}
