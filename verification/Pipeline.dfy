/**
 * The armor pipeline's stages, queues and done flags under interleaving. Each stage loop is a
 * program counter; every read of a flag, a queue or the route, and every push, pop and store, is
 * one atomic step. Queues are counts: only emptiness decides anything here.
 */
module Pipeline {
  import opened ModeRouting

  datatype RouteState = RouteState(route: Route, transitionSeq: nat)

  /** Where the inference or the post-processing loop stands. */
  datatype Pc =
    | Check                                             // top of the loop
    | UpstreamDone                                      // upstream's flag was read as set
    | Popping                                           // inside the pop
    | Got                                               // holds an item
    | Working(first: RouteState, at: nat)               // after the first route read, at the at-th route change
    | Pushing(first: RouteState, at: nat, again: nat)   // after the second read, at change `again`, allowed the push
    | Leaving                                           // out of the loop, flag not stored yet
    | Finished

  /** The estimator's loop reads the route once, before it pops. */
  datatype EstimatePc = Top | PostDone | Routing | Taking | Exiting | Ended

  datatype Stage = Infer | Post

  datatype StageAction =
    | ReadFlag | ReadEmpty | Pop | Discard | GiveUpPop | ReadRoute | Fail | ReadRouteAgain | PushResult | Store

  datatype EstimateAction = EstimateFlag | EstimateEmpty | EstimateRoute | EstimateTake | EstimateDiscard
      | EstimateGiveUp | EstimateStore

  datatype Action =
    | SourcePush
    | SourceFinish
    | Do(stage: Stage, what: StageAction)
    | DoEstimate(how: EstimateAction)
    | ApplyMode(mode: TaskMode)
    | ClearOne(queue: nat)

  datatype System = System(
    capacity: nat,
    sourceDone: bool, inferDone: bool, postDone: bool, estimateDone: bool,
    preInfer: nat, inferPost: nat, solved: nat,        // queue lengths
    infer: Pc, post: Pc, estimate: EstimatePc,
    inferFailed: bool,
    route: RouteState,
    changes: nat)                                      // route changes so far, not saturated

  /** Without a usable inference session that stage leaves at once. */
  function Init(capacity: nat, mode: TaskMode, session: bool): System {
    System(capacity, false, false, false, false, 0, 0, 0, if session then Check else Leaving, Check, Top,
           !session, RouteState(RouteOf(mode), 0), 0)
  }

  function At(s: System, stage: Stage): Pc { if stage == Infer then s.infer else s.post }

  // ----- one stage -----

  predicate CanDo(pc: Pc, input: nat, what: StageAction) {
    match what
    case ReadFlag => pc == Check
    case ReadEmpty => pc == UpstreamDone
    case Pop => pc == Popping && input > 0
    case Discard => pc == Popping && input > 0
    case GiveUpPop => pc == Popping
    case ReadRoute => pc == Got
    case Fail => pc.Working?
    case ReadRouteAgain => pc.Working?
    case PushResult => pc.Pushing?
    case Store => pc == Leaving
  }

  /** Each pop of a drain is its own step, keeping the item or discarding it. `stops`: an error ends the loop. */
  function StepPc(pc: Pc, upstream: bool, input: nat, route: RouteState, changes: nat, stops: bool,
                  what: StageAction): Pc
    requires CanDo(pc, input, what)
  {
    match what
    case ReadFlag => if upstream then UpstreamDone else Popping
    case ReadEmpty => if input == 0 then Leaving else Popping
    case Pop => Got
    case Discard => Popping
    case GiveUpPop => Check
    case ReadRoute => if ArmorActive(route.route) then Working(route, changes) else Check
    case Fail => if stops then Leaving else Check
    case ReadRouteAgain =>
      if route.transitionSeq == pc.first.transitionSeq && ArmorActive(route.route)
      then Pushing(pc.first, pc.at, changes)
      else Check
    case PushResult => Check
    case Store => Finished
  }

  function Taken(input: nat, what: StageAction): nat {
    if (what == Pop || what == Discard) && input > 0 then input - 1 else input
  }

  /** A full latest-wins queue drops its oldest item for the new one. */
  function Pushed(n: nat, capacity: nat): nat { if n < capacity then n + 1 else n }

  function Given(output: nat, capacity: nat, what: StageAction): nat {
    if what == PushResult then Pushed(output, capacity) else output
  }

  // ----- the whole system -----

  predicate CanEstimate(s: System, how: EstimateAction) {
    match how
    case EstimateFlag => s.estimate == Top
    case EstimateEmpty => s.estimate == PostDone
    case EstimateRoute => s.estimate == Routing
    case EstimateTake => s.estimate == Taking && s.solved > 0
    case EstimateDiscard => s.estimate == Taking && s.solved > 0
    case EstimateGiveUp => s.estimate == Taking
    case EstimateStore => s.estimate == Exiting
  }

  predicate CanStage(s: System, stage: Stage, what: StageAction) {
    match stage
    case Infer => CanDo(s.infer, s.preInfer, what)
    case Post => CanDo(s.post, s.inferPost, what)
  }

  predicate Enabled(s: System, a: Action) {
    match a
    case SourcePush => !s.sourceDone
    case SourceFinish => !s.sourceDone
    case Do(stage, what) => CanStage(s, stage, what)
    case DoEstimate(how) => CanEstimate(s, how)
    case ApplyMode(_) => true
    case ClearOne(q) => (q == 0 && s.preInfer > 0) || (q == 1 && s.inferPost > 0) || (q == 2 && s.solved > 0)
  }

  function StageStep(s: System, stage: Stage, what: StageAction): System
    requires CanStage(s, stage, what)
  {
    match stage
    case Infer =>
      s.(infer := StepPc(s.infer, s.sourceDone, s.preInfer, s.route, s.changes, true, what),
         preInfer := Taken(s.preInfer, what),
         inferPost := Given(s.inferPost, s.capacity, what),
         inferFailed := s.inferFailed || what == Fail,
         inferDone := s.inferDone || what == Store)
    case Post =>
      s.(post := StepPc(s.post, s.inferDone, s.inferPost, s.route, s.changes, false, what),
         inferPost := Taken(s.inferPost, what),
         solved := Given(s.solved, s.capacity, what),
         postDone := s.postDone || what == Store)
  }

  function EstimateStep(s: System, how: EstimateAction): System
    requires CanEstimate(s, how)
  {
    match how
    case EstimateFlag => s.(estimate := if s.postDone then PostDone else Routing)
    case EstimateEmpty => s.(estimate := if s.solved == 0 then Exiting else Routing)
    case EstimateRoute => s.(estimate := if ArmorActive(s.route.route) then Taking else Top)
    case EstimateTake => s.(solved := s.solved - 1, estimate := Top)
    case EstimateDiscard => s.(solved := s.solved - 1)
    case EstimateGiveUp => s.(estimate := Top)
    case EstimateStore => s.(estimateDone := true, estimate := Ended)
  }

  function Next(s: System, a: Action): System
    requires Enabled(s, a)
  {
    match a
    case SourcePush => s.(preInfer := Pushed(s.preInfer, s.capacity))
    case SourceFinish => s.(sourceDone := true)
    case Do(stage, what) => StageStep(s, stage, what)
    case DoEstimate(how) => EstimateStep(s, how)
    case ApplyMode(mode) =>
      if RouteOf(mode) == s.route.route then s
      else s.(route := RouteState(RouteOf(mode), Saturated(s.route.transitionSeq + 1)), changes := s.changes + 1)
    case ClearOne(q) =>
      if q == 0 then s.(preInfer := s.preInfer - 1)
      else if q == 1 then s.(inferPost := s.inferPost - 1)
      else s.(solved := s.solved - 1)
  }

  // ----- shutdown -----

  /** A stage past its empty check has a finished upstream and an empty input, for good. */
  ghost predicate Drained(s: System) {
    && (s.inferDone <==> s.infer == Finished)
    && (s.postDone <==> s.post == Finished)
    && (s.estimateDone <==> s.estimate == Ended)
    && (s.infer == UpstreamDone ==> s.sourceDone)
    && (s.post == UpstreamDone ==> s.inferDone)
    && (s.estimate == PostDone ==> s.postDone)
    && (s.infer in {Leaving, Finished} && !s.inferFailed ==> s.sourceDone && s.preInfer == 0)
    && (s.inferFailed ==> s.infer in {Leaving, Finished})
    && (s.post in {Leaving, Finished} ==> s.inferDone && s.inferPost == 0)
    && (s.estimate in {Exiting, Ended} ==> s.postDone && s.solved == 0)
  }

  // ----- route reads -----

  /** What a stage remembers of the route it read when `at` changes had happened. */
  ghost predicate Remembers(pc: Pc, route: RouteState, changes: nat) {
    && (pc.Working? ==> pc.at <= changes && pc.first.transitionSeq == Saturated(pc.at) && ArmorActive(pc.first.route)
                        && (pc.at == changes ==> pc.first == route))
    && (pc.Pushing? ==> pc.at <= pc.again <= changes && (pc.at == pc.again || pc.at >= U64_MAX)
                        && ArmorActive(pc.first.route)
                        && (pc.at == changes ==> pc.first == route))
  }

  ghost predicate RouteInv(s: System) {
    && s.route.transitionSeq == Saturated(s.changes)
    && Remembers(s.infer, s.route, s.changes) && Remembers(s.post, s.route, s.changes)
  }

  ghost predicate Inv(s: System) { Drained(s) && RouteInv(s) }

  lemma StageKeepsDrained(s: System, stage: Stage, what: StageAction)
    requires Drained(s) && CanStage(s, stage, what)
    ensures Drained(StageStep(s, stage, what))
  {
  }

  lemma EstimateKeepsDrained(s: System, how: EstimateAction)
    requires Drained(s) && CanEstimate(s, how)
    ensures Drained(EstimateStep(s, how))
  {
  }

  lemma StepKeepsDrained(s: System, a: Action)
    requires Drained(s) && Enabled(s, a)
    ensures Drained(Next(s, a))
  {
    hide StageStep, CanStage, EstimateStep, CanEstimate;
    if a.Do? {
      StageKeepsDrained(s, a.stage, a.what);
    } else if a.DoEstimate? {
      EstimateKeepsDrained(s, a.how);
    }
  }

  lemma MoreChanges(pc: Pc, route: RouteState, changes: nat, route': RouteState)
    requires Remembers(pc, route, changes)
    ensures Remembers(pc, route', changes + 1) && Saturated(Saturated(changes) + 1) == Saturated(changes + 1)
  {
  }

  lemma StageKeepsRoute(s: System, stage: Stage, what: StageAction)
    requires RouteInv(s) && CanStage(s, stage, what)
    ensures RouteInv(StageStep(s, stage, what))
  {
  }

  lemma EstimateKeepsRoute(s: System, how: EstimateAction)
    requires RouteInv(s) && CanEstimate(s, how)
    ensures RouteInv(EstimateStep(s, how))
  {
  }

  lemma StepKeepsRoute(s: System, a: Action)
    requires RouteInv(s) && Enabled(s, a)
    ensures RouteInv(Next(s, a))
  {
    hide StageStep, CanStage, EstimateStep, CanEstimate, Remembers, Saturated;
    if a.Do? {
      StageKeepsRoute(s, a.stage, a.what);
    } else if a.DoEstimate? {
      EstimateKeepsRoute(s, a.how);
    } else if a.ApplyMode? {
      MoreChanges(s.infer, s.route, s.changes, Next(s, a).route);
      MoreChanges(s.post, s.route, s.changes, Next(s, a).route);
    }
  }

  /** Change counts and done flags only go up. */
  ghost predicate Later(s: System, s': System) {
    && s.changes <= s'.changes
    && (s.inferDone ==> s'.inferDone) && (s.postDone ==> s'.postDone) && (s.estimateDone ==> s'.estimateDone)
  }

  lemma StageIsLater(s: System, stage: Stage, what: StageAction)
    requires CanStage(s, stage, what)
    ensures Later(s, StageStep(s, stage, what))
  {
  }

  lemma StepIsLater(s: System, a: Action)
    requires Enabled(s, a)
    ensures Later(s, Next(s, a))
  {
    hide StageStep, CanStage, Saturated, Pushed;
    if a.Do? {
      StageIsLater(s, a.stage, a.what);
    }
  }

  ghost predicate IsRun(s: System, actions: seq<Action>, s': System)
    decreases |actions|
  {
    if actions == [] then s' == s
    else Enabled(s, actions[0]) && IsRun(Next(s, actions[0]), actions[1..], s')
  }

  lemma {:induction false} RunKeepsInv(s: System, actions: seq<Action>, s': System)
    requires Inv(s) && IsRun(s, actions, s')
    ensures Inv(s') && Later(s, s')
    decreases |actions|
  {
    hide Drained, RouteInv, Next, Enabled;
    if actions == [] {
    } else {
      StepKeepsDrained(s, actions[0]);
      StepKeepsRoute(s, actions[0]);
      StepIsLater(s, actions[0]);
      RunKeepsInv(Next(s, actions[0]), actions[1..], s');
    }
  }

  /** In every interleaving the done flags are set in pipeline order. */
  lemma DoneInOrder(capacity: nat, mode: TaskMode, session: bool, actions: seq<Action>, s: System)
    requires capacity > 0 && IsRun(Init(capacity, mode, session), actions, s)
    ensures s.estimateDone ==> s.postDone
    ensures s.postDone ==> s.inferDone
    ensures s.inferDone ==> s.inferFailed || s.sourceDone
  {
    RunKeepsInv(Init(capacity, mode, session), actions, s);
  }

  /** Once a stage is done its input queue is empty and stays so in every continuation. */
  lemma DoneStaysDrained(capacity: nat, mode: TaskMode, session: bool, actions: seq<Action>, s: System,
                         more: seq<Action>, s': System)
    requires capacity > 0 && IsRun(Init(capacity, mode, session), actions, s) && IsRun(s, more, s')
    ensures s.postDone ==> s.inferPost == 0 && s'.inferPost == 0
    ensures s.estimateDone ==> s.solved == 0 && s'.solved == 0
    ensures s.inferDone && !s'.inferFailed ==> s'.preInfer == 0
  {
    RunKeepsInv(Init(capacity, mode, session), actions, s);
    RunKeepsInv(s, more, s');
  }

  /**
   * A stage about to push first saw a route other than the energy mechanism's, and no route change
   * happened between its two reads, unless the sequence number was already saturated at the first.
   * Without a change since the first read, the route it saw is the one selected now.
   */
  lemma PushWithinOneRoute(capacity: nat, mode: TaskMode, session: bool, actions: seq<Action>, s: System, stage: Stage)
    requires capacity > 0 && IsRun(Init(capacity, mode, session), actions, s) && At(s, stage).Pushing?
    ensures At(s, stage).first.route != EnergyMechanismRoute
    ensures At(s, stage).at == s.changes ==> At(s, stage).first.route == s.route.route
    ensures At(s, stage).at < U64_MAX ==> At(s, stage).at == At(s, stage).again
  {
    RunKeepsInv(Init(capacity, mode, session), actions, s);
  }

  /** Equal sequence numbers mean no change in between exactly when the first was not saturated or nothing changed. */
  lemma SequenceTellsChanges(first: nat, second: nat)
    requires first <= second
    ensures Saturated(first) == Saturated(second) <==> first == second || first >= U64_MAX
  {
  }
}
