/**
 * What the policy runtime must do, said over the history of its inferences and resets alone: no
 * recurrent memory, no last action and no reset counter are kept, everything is recomputed from
 * the events. The network, the observation builder and the target decoder are parameters.
 */
module PolicyHistory {
  import opened Wrappers

  type State(==, !new)
  type Command(==, !new)
  type Obs(==, !new)
  type Hidden(==, !new)
  type Target(==, !new)

  /** A network output: finite, or one of the non-finite values. */
  datatype Float = Finite(value: real) | NonFinite

  const ACTIONS: nat := 6
  const STATE_TIMEOUT_S: real := 0.10
  const SEQ_MODULUS: nat := 0x1_0000_0000

  type Raw = seq<Float>
  type Action = a: seq<real> | |a| == ACTIONS witness seq(ACTIONS, _ => 0.0)

  const ZERO: Action := [0.0, 0.0, 0.0, 0.0, 0.0, 0.0]

  datatype Network = Network(zero: Hidden, act: (Obs, Hidden) -> (Raw, Hidden))

  datatype Flag = StateTimeout | NonFiniteValue | OutputDisabledHold | CommandInactive

  datatype Setup = Setup(
    net: Network,
    observe: (State, Command, Action) -> Option<(Obs, bool)>,  // the observation, and whether an input was non-finite
    decode: (Command, Action) -> Option<Target>,
    hold: State -> Target,
    packable: Target -> bool,
    commandPackable: Command -> bool,
    outputEnabled: State -> bool,
    clip: Option<real>)

  function Sanitize(raw: Raw): Action {
    seq(ACTIONS, i => if 0 <= i < |raw| && raw[i].Finite? then raw[i].value else 0.0)
  }

  predicate AllFinite(raw: Raw) {
    forall i :: 0 <= i < ACTIONS && i < |raw| ==> raw[i].Finite?
  }

  function Clamp(x: real, c: real): real {
    if x < -c then -c else if x > c then c else x
  }

  function ClipAction(clip: Option<real>, a: Action): Action {
    match clip
    case None => a
    case Some(c) => seq(ACTIONS, i => if 0 <= i < ACTIONS then Clamp(a[i], c) else 0.0)
  }

  datatype TargetMode = InactiveMode | HoldCurrent | Policy

  function TargetModeOf(flags: set<Flag>): TargetMode {
    if CommandInactive in flags then InactiveMode
    else if OutputDisabledHold in flags || StateTimeout in flags then HoldCurrent
    else Policy
  }

  // ----- what the history determines -----

  datatype Event = Inferred(obs: Obs) | Cleared

  ghost function SinceReset(trace: seq<Event>): seq<Obs> {
    if trace == [] then []
    else match trace[|trace| - 1]
      case Cleared => []
      case Inferred(obs) => SinceReset(trace[..|trace| - 1]) + [obs]
  }

  ghost function Fold(net: Network, obs: seq<Obs>): Hidden {
    if obs == [] then net.zero else net.act(obs[|obs| - 1], Fold(net, obs[..|obs| - 1])).1
  }

  ghost function MemoryAfter(net: Network, trace: seq<Event>): Hidden {
    Fold(net, SinceReset(trace))
  }

  ghost function Resets(trace: seq<Event>): nat {
    if trace == [] then 0
    else Resets(trace[..|trace| - 1]) + (if trace[|trace| - 1].Cleared? then 1 else 0)
  }

  /** What the network put out at the inference that follows `trace`. */
  ghost function RawOf(net: Network, trace: seq<Event>, obs: Obs): Raw {
    net.act(obs, MemoryAfter(net, trace)).0
  }

  /** The action of the last inference since the reset, as it is fed back; zero if there is none. */
  ghost function LastAction(setup: Setup, trace: seq<Event>): Action {
    if trace == [] || trace[|trace| - 1].Cleared? then ZERO
    else ClipAction(setup.clip, Sanitize(RawOf(setup.net, trace[..|trace| - 1], trace[|trace| - 1].obs)))
  }

  lemma InferenceExtends(net: Network, trace: seq<Event>, obs: Obs)
    ensures SinceReset(trace + [Inferred(obs)]) == SinceReset(trace) + [obs]
    ensures MemoryAfter(net, trace + [Inferred(obs)]) == net.act(obs, MemoryAfter(net, trace)).1
    ensures Resets(trace + [Inferred(obs)]) == Resets(trace)
  {
    assert (trace + [Inferred(obs)])[..|trace|] == trace;
  }

  lemma ResetExtends(net: Network, trace: seq<Event>)
    ensures SinceReset(trace + [Cleared]) == [] && MemoryAfter(net, trace + [Cleared]) == net.zero
    ensures Resets(trace + [Cleared]) == Resets(trace) + 1
  {
    assert (trace + [Cleared])[..|trace|] == trace;
  }

  lemma ActionExtends(setup: Setup, trace: seq<Event>, obs: Obs)
    ensures LastAction(setup, trace + [Inferred(obs)]) == ClipAction(setup.clip, Sanitize(RawOf(setup.net, trace, obs)))
  {
    assert (trace + [Inferred(obs)])[..|trace|] == trace;
  }

  /** Nothing is fed back from before a reset. */
  lemma CleanAction(setup: Setup, trace: seq<Event>)
    ensures SinceReset(trace) == [] ==> LastAction(setup, trace) == ZERO
  {
  }

  function Inferences(obs: seq<Obs>): (t: seq<Event>)
    ensures |t| == |obs| && forall i :: 0 <= i < |t| ==> t[i] == Inferred(obs[i])
  {
    seq(|obs|, i requires 0 <= i < |obs| => Inferred(obs[i]))
  }

  /** Only the inferences after the last reset count, whatever came before it. */
  lemma {:induction false} ResetForgets(before: seq<Event>, obs: seq<Obs>)
    ensures SinceReset(before + [Cleared] + Inferences(obs)) == obs
  {
    var t := before + [Cleared] + Inferences(obs);
    if obs == [] {
      assert t == before + [Cleared];
    } else {
      var init := obs[..|obs| - 1];
      assert t[..|t| - 1] == before + [Cleared] + Inferences(init);
      ResetForgets(before, init);
    }
  }

  // ----- telemetry and its replay -----

  datatype Row = Row(resetId: Option<nat>, flags: set<Flag>, obs: Obs, action: Action)

  predicate IsPolicy(row: Row) { TargetModeOf(row.flags) == Policy }

  datatype ReplayState = ReplayState(hidden: Hidden, marker: Option<nat>, lastPolicy: bool)

  predicate ResetNow(s: ReplayState, row: Row) {
    if row.resetId.Some? && row.resetId != s.marker then true
    else row.resetId.None? && IsPolicy(row) && !s.lastPolicy
  }

  /** The memory a replay holds when it has decided about a reset and not yet run the network. */
  function ReplayMemory(net: Network, s: ReplayState, row: Row): Hidden {
    if ResetNow(s, row) then net.zero else s.hidden
  }

  function ReplayRow(net: Network, s: ReplayState, row: Row): ReplayState {
    ReplayState(
      if IsPolicy(row) then net.act(row.obs, ReplayMemory(net, s, row)).1 else net.zero,
      if row.resetId.Some? then row.resetId else s.marker,
      IsPolicy(row))
  }

  function Replay(net: Network, rows: seq<Row>): ReplayState {
    if rows == [] then ReplayState(net.zero, None, false)
    else ReplayRow(net, Replay(net, rows[..|rows| - 1]), rows[|rows| - 1])
  }

  /** What the replay feeds the network at row i. */
  function MemoryAt(net: Network, rows: seq<Row>, i: nat): Hidden
    requires i < |rows|
  {
    ReplayMemory(net, Replay(net, rows[..i]), rows[i])
  }

  function ReplayedActions(net: Network, rows: seq<Row>, n: nat): seq<Raw>
    requires n <= |rows|
  {
    if n == 0 then []
    else ReplayedActions(net, rows, n - 1) +
         (if IsPolicy(rows[n - 1]) then [net.act(rows[n - 1].obs, MemoryAt(net, rows, n - 1)).0] else [])
  }

  lemma RowAppended(net: Network, log: seq<Row>, row: Row)
    ensures Replay(net, log + [row]) == ReplayRow(net, Replay(net, log), row)
    ensures forall i :: 0 <= i < |log| ==> MemoryAt(net, log + [row], i) == MemoryAt(net, log, i)
    ensures MemoryAt(net, log + [row], |log|) == ReplayMemory(net, Replay(net, log), row)
  {
    assert (log + [row])[..|log|] == log;
    forall i | 0 <= i < |log| ensures MemoryAt(net, log + [row], i) == MemoryAt(net, log, i) {
      assert (log + [row])[..i] == log[..i];
    }
  }

  // ----- one step -----

  datatype Packet = TargetPacket(number: nat, target: Target) | CommandPacket(number: nat, command: Command)

  datatype StepOutput = StepOutput(action: Action, flags: set<Flag>, obs: Obs, inferred: bool,
                                   packet: Packet, commandPacket: Packet)

  datatype Sample = Sample(command: Command, active: bool)

  predicate IsHold(setup: Setup, state: State, age: real, sample: Sample) {
    !sample.active || age > STATE_TIMEOUT_S || !setup.outputEnabled(state)
  }

  function HoldFlag(age: real, sample: Sample): Flag {
    if !sample.active then CommandInactive else if age > STATE_TIMEOUT_S then StateTimeout else OutputDisabledHold
  }

  function NextNumber(number: nat): nat { (number + 1) % SEQ_MODULUS }

  /** The history after a step, the next packet number, and the output unless the step failed. */
  datatype Stepped = Stepped(trace: seq<Event>, number: nat, out: Option<StepOutput>)

  /** A hold forgets what was inferred since the last reset, if anything was. */
  ghost function Held(trace: seq<Event>): seq<Event> {
    if SinceReset(trace) == [] then trace else trace + [Cleared]
  }

  ghost function HoldStepped(setup: Setup, trace: seq<Event>, number: nat, state: State, command: Command,
                             flag: Flag): Stepped {
    var o := setup.observe(state, command, ZERO);
    if o.None? then Stepped(Held(trace), number, None)
    else if !setup.packable(setup.hold(state)) || !setup.commandPackable(command) then
      Stepped(Held(trace), NextNumber(number), None)
    else
      var flags := if o.value.1 then {flag, NonFiniteValue} else {flag};
      Stepped(Held(trace), NextNumber(number),
              Some(StepOutput(ZERO, flags, o.value.0, false, TargetPacket(number, setup.hold(state)),
                              CommandPacket(number, command))))
  }

  ghost function PolicyStepped(setup: Setup, trace: seq<Event>, number: nat, state: State, command: Command): Stepped {
    var o := setup.observe(state, command, LastAction(setup, trace));
    if o.None? then Stepped(trace, number, None)
    else
      var (obs, bad) := o.value;
      var trace' := trace + [Inferred(obs)];
      var raw := RawOf(setup.net, trace, obs);
      var target := setup.decode(command, Sanitize(raw));
      if target.None? then Stepped(trace', number, None)
      else if !setup.packable(target.value) || !setup.commandPackable(command) then
        Stepped(trace', NextNumber(number), None)
      else
        var flags := if bad || !AllFinite(raw) then {NonFiniteValue} else {};
        Stepped(trace', NextNumber(number),
                Some(StepOutput(Sanitize(raw), flags, obs, true, TargetPacket(number, target.value),
                                CommandPacket(number, command))))
  }

  ghost function AfterStep(setup: Setup, trace: seq<Event>, number: nat, state: State, age: real,
                           sample: Sample): Stepped {
    if IsHold(setup, state, age, sample) then
      HoldStepped(setup, trace, number, state, sample.command, HoldFlag(age, sample))
    else PolicyStepped(setup, trace, number, state, sample.command)
  }

  /** The network runs exactly for an active command, a state at most 0.1 s old and enabled output. */
  ghost predicate Runs(setup: Setup, state: State, age: real, sample: Sample) {
    sample.active && age <= 0.10 && setup.outputEnabled(state)
  }

  /**
   * A completed step, told from its output: which network output it acts on, what it sends, and what
   * the flags say. Both packets carry the step's number.
   */
  lemma StepOutputs(setup: Setup, trace: seq<Event>, number: nat, state: State, age: real, sample: Sample)
    requires AfterStep(setup, trace, number, state, age, sample).out.Some?
    ensures var out := AfterStep(setup, trace, number, state, age, sample).out.value;
            && out.packet.TargetPacket? && out.packet.number == number
            && out.commandPacket == CommandPacket(number, sample.command)
            && (out.inferred <==> Runs(setup, state, age, sample))
            && (out.inferred <==> TargetModeOf(out.flags) == Policy)
            && (out.inferred ==> InferredOutput(setup, trace, state, sample, out))
            && (!out.inferred ==> HeldOutput(setup, state, age, sample, out))
  {
    hide LastAction, Held, MemoryAfter;
  }

  /** The action is the network's output with anything non-finite zeroed, and the target is decoded from it. */
  ghost predicate InferredOutput(setup: Setup, trace: seq<Event>, state: State, sample: Sample, out: StepOutput)
    requires out.packet.TargetPacket?
  {
    var observed := setup.observe(state, sample.command, LastAction(setup, trace));
    var raw := RawOf(setup.net, trace, out.obs);
    && observed.Some? && observed.value.0 == out.obs
    && (forall i :: 0 <= i < ACTIONS && i < |raw| && raw[i].Finite? ==> out.action[i] == raw[i].value)
    && (forall i :: 0 <= i < ACTIONS && (i >= |raw| || raw[i].NonFinite?) ==> out.action[i] == 0.0)
    && setup.decode(sample.command, out.action) == Some(out.packet.target)
    && (NonFiniteValue in out.flags <==>
          observed.value.1 || exists i :: 0 <= i < ACTIONS && i < |raw| && raw[i].NonFinite?)
  }

  /** The action is zero, the observation is built with no action behind it, and one flag says why. */
  ghost predicate HeldOutput(setup: Setup, state: State, age: real, sample: Sample, out: StepOutput)
    requires out.packet.TargetPacket?
  {
    var zero := [0.0, 0.0, 0.0, 0.0, 0.0, 0.0];
    var observed := setup.observe(state, sample.command, zero);
    && observed.Some? && observed.value.0 == out.obs && out.action == zero
    && out.packet.target == setup.hold(state)
    && (NonFiniteValue in out.flags <==> observed.value.1)
    && (CommandInactive in out.flags <==> !sample.active)
    && (StateTimeout in out.flags <==> sample.active && age > 0.10)
    && (OutputDisabledHold in out.flags <==> sample.active && age <= 0.10)
  }

  /** Clipping keeps values within the limit and moves others to the nearer end of it. */
  lemma ClipsToLimit(a: Action, c: real, i: nat)
    requires i < ACTIONS && c >= 0.0
    ensures var x := ClipAction(Some(c), a)[i];
            if a[i] > c then x == c else if a[i] < -c then x == -c else x == a[i]
    ensures ClipAction(None, a) == a
  {
  }

  lemma ZeroStaysClipped(clip: Option<real>)
    requires clip.Some? ==> clip.value >= 0.0
    ensures ClipAction(clip, ZERO) == ZERO
  {
  }

  /** The clipped action of a completed step is what the history feeds back from then on. */
  lemma StepRecordable(setup: Setup, trace: seq<Event>, number: nat, state: State, age: real, sample: Sample)
    requires setup.clip.Some? ==> setup.clip.value >= 0.0
    requires AfterStep(setup, trace, number, state, age, sample).out.Some?
    ensures var s := AfterStep(setup, trace, number, state, age, sample);
            && ClipAction(setup.clip, s.out.value.action) == LastAction(setup, s.trace)
            && (s.out.value.inferred ==> |s.trace| == |trace| + 1)
  {
    hide ClipAction, Sanitize, RawOf, AllFinite, SinceReset;
    ZeroStaysClipped(setup.clip);
    StepExtends(setup, trace, number, state, age, sample);
    StepOutputs(setup, trace, number, state, age, sample);
    var s := AfterStep(setup, trace, number, state, age, sample);
    hide AfterStep, LastAction;
    if s.out.value.inferred {
      ActionExtends(setup, trace, s.out.value.obs);
    } else {
      HeldAction(setup, trace);
    }
  }

  lemma HeldAction(setup: Setup, trace: seq<Event>)
    ensures LastAction(setup, Held(trace)) == ZERO
  {
  }

  // ----- whole runs -----

  datatype WriteOutcome = Written | WriteTimeout | WriteFailed

  /** One pass of the inner loop, as far as the outside world decides it. */
  datatype Tick =
    | NotDue
    | Disconnected
    | Broken      // another serial error, or a state payload that does not decode
    | NoState
    | Due(state: State, age: real, sample: Sample, write: WriteOutcome)

  datatype LoopResult = Done | Reconnect | Fatal

  /** at[i] is how many events preceded the step that wrote log[i], its own reset included. */
  datatype History = History(trace: seq<Event>, number: nat, steps: nat, reconnects: nat, log: seq<Row>, at: seq<nat>)

  ghost function Start(): History { History([], 0, 0, 0, [], []) }

  ghost function Logged(h: History, s: Stepped): History
    requires s.out.Some?
  {
    var out := s.out.value;
    History(s.trace, s.number, h.steps + 1, h.reconnects,
            h.log + [Row(Some(Resets(s.trace)), out.flags, out.obs, out.action)],
            h.at + [if out.inferred then |h.trace| else |s.trace|])
  }

  ghost function AfterTick(setup: Setup, h: History, tick: Tick): (History, Option<LoopResult>) {
    match tick
    case NotDue => (h, None)
    case Disconnected => (h, Some(Reconnect))
    case Broken => (h, Some(Fatal))
    case NoState => (h.(steps := h.steps + 1), None)
    case Due(state, age, sample, write) =>
      var s := AfterStep(setup, h.trace, h.number, state, age, sample);
      var unlogged := h.(trace := s.trace, number := s.number);
      if s.out.None? || write == WriteFailed then (unlogged, Some(Fatal))
      else if write == WriteTimeout then (unlogged, Some(Reconnect))
      else (Logged(h, s), None)
  }

  ghost function Reset(h: History): History { h.(trace := h.trace + [Cleared]) }

  predicate Enough(steps: nat, maxSteps: nat) { maxSteps != 0 && steps >= maxSteps }

  ghost function AfterSession(setup: Setup, h: History, ticks: seq<Tick>, maxSteps: nat): (History, Option<LoopResult>)
    decreases |ticks|
  {
    if Enough(h.steps, maxSteps) || ticks == [] then (h, None)
    else
      var (h', stop) := AfterTick(setup, h, ticks[0]);
      if stop.Some? then (h', stop) else AfterSession(setup, h', ticks[1..], maxSteps)
  }

  /** What a run over these sessions leaves: a forced reset at every connection and after every lost one. */
  ghost function AfterRun(setup: Setup, h: History, sessions: seq<seq<Tick>>, maxSteps: nat): (History, LoopResult)
    decreases |sessions|
  {
    if Enough(h.steps, maxSteps) || sessions == [] then (h, Done)
    else
      var (h', stop) := AfterSession(setup, Reset(h), sessions[0], maxSteps);
      if stop.None? then (h', Done)
      else if stop.value != Reconnect then (h', stop.value)
      else AfterRun(setup, Reset(h').(reconnects := h'.reconnects + 1), sessions[1..], maxSteps)
  }

  // ----- replay is faithful to the history -----

  /** Row i stems from the inference at event k: the replay feeds the network the memory it had there. */
  ghost predicate FromInference(net: Network, trace: seq<Event>, log: seq<Row>, i: nat, k: nat)
    requires i < |log|
  {
    && k < |trace| && trace[k] == Inferred(log[i].obs)
    && MemoryAt(net, log, i) == MemoryAfter(net, trace[..k])
    && log[i].action == Sanitize(RawOf(net, trace[..k], log[i].obs))
  }

  ghost predicate RowFaithful(net: Network, h: History, i: nat)
    requires i < |h.log| == |h.at|
  {
    && h.at[i] <= |h.trace| && h.log[i].resetId == Some(Resets(h.trace[..h.at[i]]))
    && (IsPolicy(h.log[i]) ==> FromInference(net, h.trace, h.log, i, h.at[i]))
  }

  /** Every row is faithful, and different policy rows stem from different inferences, in order. */
  ghost predicate Faithful(net: Network, h: History) {
    && |h.at| == |h.log|
    && (forall i :: 0 <= i < |h.log| ==> RowFaithful(net, h, i))
    && (forall i, j :: 0 <= i < j < |h.log| && IsPolicy(h.log[i]) ==> h.at[i] < h.at[j])
  }

  /** The replay is not ahead of the resets. */
  ghost predicate Behind(net: Network, h: History) {
    var m := Replay(net, h.log).marker;
    m.Some? ==> m.value <= Resets(h.trace)
  }

  /** The replay holds the live memory, or will reset at the next row because the live memory was. */
  ghost predicate Continuable(net: Network, h: History) {
    var r := Replay(net, h.log);
    MemoryAfter(net, h.trace) == if r.marker == Some(Resets(h.trace)) then r.hidden else net.zero
  }

  lemma TraceGrows(net: Network, h: History, trace: seq<Event>)
    requires Faithful(net, h) && Behind(net, h) && h.trace <= trace && Resets(h.trace) <= Resets(trace)
    ensures Faithful(net, h.(trace := trace)) && Behind(net, h.(trace := trace))
  {
    hide Resets, Replay, MemoryAt, MemoryAfter, RawOf, Sanitize, IsPolicy;
    var h' := h.(trace := trace);
    forall i | 0 <= i < |h.log| ensures RowFaithful(net, h', i) {
      assert RowFaithful(net, h, i);
      assert trace[..h.at[i]] == h.trace[..h.at[i]];
    }
  }

  /** A forced reset makes any faithful log continuable, whatever was inferred and never logged. */
  lemma ResetKeeps(net: Network, h: History)
    requires Faithful(net, h) && Behind(net, h)
    ensures Faithful(net, Reset(h)) && Behind(net, Reset(h)) && Continuable(net, Reset(h))
  {
    ResetExtends(net, h.trace);
    TraceGrows(net, h, h.trace + [Cleared]);
  }

  lemma HeldExtends(net: Network, trace: seq<Event>)
    ensures trace <= Held(trace) && Resets(trace) <= Resets(Held(trace))
    ensures MemoryAfter(net, Held(trace)) == net.zero
  {
    ResetExtends(net, trace);
  }

  /** A step only adds events, whether or not it comes to be logged. */
  lemma StepExtends(setup: Setup, trace: seq<Event>, number: nat, state: State, age: real, sample: Sample)
    ensures var s := AfterStep(setup, trace, number, state, age, sample);
            && trace <= s.trace && Resets(trace) <= Resets(s.trace)
            && (s.out.Some? && s.out.value.inferred ==>
                  && s.trace == trace + [Inferred(s.out.value.obs)]
                  && s.out.value.action == Sanitize(RawOf(setup.net, trace, s.out.value.obs)))
            && (s.out.Some? && !s.out.value.inferred ==> s.trace == Held(trace))
  {
    hide Held, Resets, MemoryAfter, LastAction, Sanitize, RawOf, AllFinite;
    HeldExtends(setup.net, trace);
    if !IsHold(setup, state, age, sample) {
      var o := setup.observe(state, sample.command, LastAction(setup, trace));
      if o.Some? {
        InferenceExtends(setup.net, trace, o.value.0);
      }
    }
  }

  /** Writing the row of a completed step keeps the log faithful and continuable. */
  lemma LogGrows(setup: Setup, h: History, state: State, age: real, sample: Sample)
    requires Faithful(setup.net, h) && Behind(setup.net, h) && Continuable(setup.net, h)
    requires AfterStep(setup, h.trace, h.number, state, age, sample).out.Some?
    ensures var h' := Logged(h, AfterStep(setup, h.trace, h.number, state, age, sample));
            Faithful(setup.net, h') && Behind(setup.net, h') && Continuable(setup.net, h')
  {
    var s := AfterStep(setup, h.trace, h.number, state, age, sample);
    StepOutputs(setup, h.trace, h.number, state, age, sample);
    StepExtends(setup, h.trace, h.number, state, age, sample);
    hide AfterStep;
    if s.out.value.inferred {
      PolicyRowKeeps(setup.net, h, s);
    } else {
      HoldRowKeeps(setup.net, h, s);
    }
  }

  lemma OldRows(net: Network, h: History, s: Stepped, h': History)
    requires Faithful(net, h) && Behind(net, h) && s.out.Some? && h' == Logged(h, s)
    requires h.trace <= s.trace && Resets(h.trace) <= Resets(s.trace)
    ensures |h'.at| == |h'.log| == |h.log| + 1
    ensures forall i :: 0 <= i < |h.log| ==> RowFaithful(net, h', i)
    ensures forall i, j :: 0 <= i < j < |h.log| && IsPolicy(h'.log[i]) ==> h'.at[i] < h'.at[j]
    ensures forall i :: 0 <= i < |h.log| ==> h.at[i] <= |h.trace| && (IsPolicy(h.log[i]) ==> h.at[i] < |h.trace|)
  {
    TraceGrows(net, h, s.trace);
    var row := h'.log[|h.log|];
    RowAppended(net, h.log, row);
    hide Resets, Replay, MemoryAt, MemoryAfter, RawOf, Sanitize, IsPolicy;
    assert h'.log == h.log + [row];
    forall i | 0 <= i < |h.log| ensures RowFaithful(net, h', i) {
      assert RowFaithful(net, h.(trace := s.trace), i);
    }
    forall i | 0 <= i < |h.log| ensures h.at[i] <= |h.trace| && (IsPolicy(h.log[i]) ==> h.at[i] < |h.trace|) {
      assert RowFaithful(net, h, i);
    }
  }

  lemma PolicyRowKeeps(net: Network, h: History, s: Stepped)
    requires Faithful(net, h) && Behind(net, h) && Continuable(net, h)
    requires s.out.Some? && s.out.value.inferred && TargetModeOf(s.out.value.flags) == Policy
    requires s.trace == h.trace + [Inferred(s.out.value.obs)]
    requires s.out.value.action == Sanitize(RawOf(net, h.trace, s.out.value.obs))
    ensures var h' := Logged(h, s); Faithful(net, h') && Behind(net, h') && Continuable(net, h')
  {
    var h', n := Logged(h, s), |h.log|;
    InferenceExtends(net, h.trace, s.out.value.obs);
    OldRows(net, h, s, h');
    RowAppended(net, h.log, h'.log[n]);
    hide SinceReset, Fold, Sanitize, Resets, Replay, MemoryAfter;
    assert s.trace[..|h.trace|] == h.trace;
    assert h'.log == h.log + [h'.log[n]];
    assert RowFaithful(net, h', n);
  }

  lemma HoldRowKeeps(net: Network, h: History, s: Stepped)
    requires Faithful(net, h) && Behind(net, h)
    requires s.out.Some? && !s.out.value.inferred && TargetModeOf(s.out.value.flags) != Policy
             && s.trace == Held(h.trace)
    ensures var h' := Logged(h, s); Faithful(net, h') && Behind(net, h') && Continuable(net, h')
  {
    var h', n := Logged(h, s), |h.log|;
    HeldExtends(net, h.trace);
    OldRows(net, h, s, h');
    RowAppended(net, h.log, h'.log[n]);
    hide SinceReset, Fold, Sanitize, Resets, Replay, MemoryAfter, Held;
    assert s.trace[..|s.trace|] == s.trace;
    assert h'.log == h.log + [h'.log[n]];
    assert RowFaithful(net, h', n);
  }

  /** A pass that infers and does not log leaves a faithful log; every other pass leaves it continuable. */
  lemma TickKeeps(setup: Setup, h: History, tick: Tick)
    requires Faithful(setup.net, h) && Behind(setup.net, h) && Continuable(setup.net, h)
    ensures var (h', stop) := AfterTick(setup, h, tick);
            && Faithful(setup.net, h') && Behind(setup.net, h')
            && (stop.None? ==> Continuable(setup.net, h'))
  {
    hide RowFaithful, Replay, Resets, MemoryAfter, IsPolicy;
    match tick
    case Due(state, age, sample, write) =>
      var s := AfterStep(setup, h.trace, h.number, state, age, sample);
      StepExtends(setup, h.trace, h.number, state, age, sample);
      if s.out.Some? {
        LogGrows(setup, h, state, age, sample);
      }
      hide AfterStep;
      TraceGrows(setup.net, h, s.trace);
      SameLog(setup.net, h.(trace := s.trace), h.(trace := s.trace, number := s.number));
    case NoState =>
      SameLog(setup.net, h, h.(steps := h.steps + 1));
    case _ =>
  }

  lemma {:induction false} SessionKeeps(setup: Setup, h: History, ticks: seq<Tick>, maxSteps: nat)
    requires Faithful(setup.net, h) && Behind(setup.net, h) && Continuable(setup.net, h)
    ensures var (h', stop) := AfterSession(setup, h, ticks, maxSteps); Faithful(setup.net, h') && Behind(setup.net, h')
    decreases |ticks|
  {
    hide Faithful, Behind, Continuable, AfterTick;
    if !Enough(h.steps, maxSteps) && ticks != [] {
      TickKeeps(setup, h, ticks[0]);
      var (h', stop) := AfterTick(setup, h, ticks[0]);
      if stop.None? {
        SessionKeeps(setup, h', ticks[1..], maxSteps);
      }
    }
  }

  lemma {:induction false} RunKeeps(setup: Setup, h: History, sessions: seq<seq<Tick>>, maxSteps: nat)
    requires Faithful(setup.net, h) && Behind(setup.net, h)
    ensures var (h', r) := AfterRun(setup, h, sessions, maxSteps); Faithful(setup.net, h') && Behind(setup.net, h')
    decreases |sessions|
  {
    hide AfterSession, RowFaithful, Replay, Resets, Reset, IsPolicy;
    if !Enough(h.steps, maxSteps) && sessions != [] {
      ResetKeeps(setup.net, h);
      SessionKeeps(setup, Reset(h), sessions[0], maxSteps);
      var (h', stop) := AfterSession(setup, Reset(h), sessions[0], maxSteps);
      if stop == Some(Reconnect) {
        ResetKeeps(setup.net, h');
        var next := Reset(h').(reconnects := h'.reconnects + 1);
        SameLog(setup.net, Reset(h'), next);
        RunKeeps(setup, next, sessions[1..], maxSteps);
      }
    }
  }

  lemma SameLog(net: Network, h: History, h': History)
    requires Faithful(net, h) && Behind(net, h) && h'.trace == h.trace && h'.log == h.log && h'.at == h.at
    ensures Faithful(net, h') && Behind(net, h') && (Continuable(net, h) ==> Continuable(net, h'))
  {
    hide Resets, Replay, IsPolicy, FromInference, MemoryAfter;
    forall i | 0 <= i < |h.log| ensures RowFaithful(net, h', i) {
      assert RowFaithful(net, h, i);
    }
  }

  // ----- limits and counts over whole runs -----

  /** A limit on the steps is kept, no row is logged without a step, and every loss counts two resets. */
  ghost predicate Bounded(h: History, maxSteps: nat) {
    (maxSteps > 0 ==> h.steps <= maxSteps) && |h.log| <= h.steps && 2 * h.reconnects <= Resets(h.trace)
  }

  lemma TickBounded(setup: Setup, h: History, tick: Tick, maxSteps: nat)
    requires !Enough(h.steps, maxSteps) && Bounded(h, maxSteps)
    ensures var h' := AfterTick(setup, h, tick).0;
            Bounded(h', maxSteps) && h'.reconnects == h.reconnects && Resets(h.trace) <= Resets(h'.trace)
  {
    hide AfterStep, Resets;
    if tick.Due? {
      StepExtends(setup, h.trace, h.number, tick.state, tick.age, tick.sample);
    }
  }

  lemma {:induction false} SessionBounded(setup: Setup, h: History, ticks: seq<Tick>, maxSteps: nat)
    requires Bounded(h, maxSteps)
    ensures var h' := AfterSession(setup, h, ticks, maxSteps).0;
            Bounded(h', maxSteps) && h'.reconnects == h.reconnects && Resets(h.trace) <= Resets(h'.trace)
    decreases |ticks|
  {
    hide AfterTick, Bounded, Resets;
    if !Enough(h.steps, maxSteps) && ticks != [] {
      TickBounded(setup, h, ticks[0], maxSteps);
      var (h', stop) := AfterTick(setup, h, ticks[0]);
      if stop.None? {
        SessionBounded(setup, h', ticks[1..], maxSteps);
      }
    }
  }

  lemma {:induction false} RunBounded(setup: Setup, h: History, sessions: seq<seq<Tick>>, maxSteps: nat)
    requires Bounded(h, maxSteps)
    ensures Bounded(AfterRun(setup, h, sessions, maxSteps).0, maxSteps)
    decreases |sessions|
  {
    hide AfterSession, Resets, Enough;
    if !Enough(h.steps, maxSteps) && sessions != [] {
      ResetExtends(setup.net, h.trace);
      SessionBounded(setup, Reset(h), sessions[0], maxSteps);
      var (h', stop) := AfterSession(setup, Reset(h), sessions[0], maxSteps);
      if stop == Some(Reconnect) {
        ResetExtends(setup.net, h'.trace);
        RunBounded(setup, Reset(h').(reconnects := h'.reconnects + 1), sessions[1..], maxSteps);
      }
    }
  }

  /** What the network really put out at the logged policy rows among the first n. */
  ghost function LiveOutputs(net: Network, h: History, n: nat): seq<Raw>
    requires Faithful(net, h) && n <= |h.log|
  {
    if n == 0 then []
    else
      assert RowFaithful(net, h, n - 1);
      LiveOutputs(net, h, n - 1) +
      (if IsPolicy(h.log[n - 1]) then [RawOf(net, h.trace[..h.at[n - 1]], h.log[n - 1].obs)] else [])
  }

  lemma {:induction false} ReplayedIsLive(net: Network, h: History, n: nat)
    requires Faithful(net, h) && n <= |h.log|
    ensures ReplayedActions(net, h.log, n) == LiveOutputs(net, h, n)
  {
    hide MemoryAt, MemoryAfter, IsPolicy, Sanitize, Resets;
    if n > 0 {
      ReplayedIsLive(net, h, n - 1);
      assert RowFaithful(net, h, n - 1);
    }
  }

  /**
   * Replaying the log of any run gives back, row by row, what the network put out live: the memory
   * at each policy row is that of the run's own history there, whatever was inferred and not logged.
   */
  lemma ReplayFidelity(setup: Setup, sessions: seq<seq<Tick>>, maxSteps: nat)
    ensures var h := AfterRun(setup, Start(), sessions, maxSteps).0;
            && Faithful(setup.net, h)
            && ReplayedActions(setup.net, h.log, |h.log|) == LiveOutputs(setup.net, h, |h.log|)
  {
    hide AfterRun;
    RunKeeps(setup, Start(), sessions, maxSteps);
    var h := AfterRun(setup, Start(), sessions, maxSteps).0;
    ReplayedIsLive(setup.net, h, |h.log|);
  }

  /** A replayed output equals the logged action exactly when the network's output was finite. */
  lemma ReplayMatchesLog(net: Network, h: History, i: nat)
    requires Faithful(net, h) && i < |h.log| && IsPolicy(h.log[i])
    ensures var raw := net.act(h.log[i].obs, MemoryAt(net, h.log, i)).0;
            |raw| >= ACTIONS ==>
              ((forall k :: 0 <= k < ACTIONS ==> raw[k] == Finite(h.log[i].action[k])) <==> AllFinite(raw))
  {
    assert RowFaithful(net, h, i);
  }
}
