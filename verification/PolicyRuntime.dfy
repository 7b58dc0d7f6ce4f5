/**
 * The policy runtime as the code keeps it: recurrent memory, last action, counters and flags updated
 * step by step. Every method is proved to do what the history of events says.
 */
module PolicyRuntime {
  import opened Wrappers
  import opened PolicyHistory

  lemma ReplayNext(net: Network, rows: seq<Row>, i: nat)
    requires i < |rows|
    ensures Replay(net, rows[..i + 1]) == ReplayRow(net, Replay(net, rows[..i]), rows[i])
  {
    assert rows[..i + 1][..i] == rows[..i];
  }

  method ReplayRows(net: Network, rows: seq<Row>, maxRows: nat)
    returns (actions: seq<Raw>, policyRows: nat, holdRows: nat)
    ensures var n := if maxRows > 0 && maxRows < |rows| then maxRows else |rows|;
            && actions == ReplayedActions(net, rows, n)
            && policyRows == |actions| && policyRows + holdRows == n
  {
    var hidden, marker: Option<nat>, lastPolicy := net.zero, None, false;
    assert Replay(net, rows[..0]) == ReplayState(hidden, marker, lastPolicy);
    hide Replay;
    actions, policyRows, holdRows := [], 0, 0;
    var i := 0;
    while i < |rows|
      invariant i <= |rows| && (maxRows > 0 ==> i <= maxRows)
      invariant ReplayState(hidden, marker, lastPolicy) == Replay(net, rows[..i])
      invariant actions == ReplayedActions(net, rows, i)
      invariant policyRows == |actions| && policyRows + holdRows == i
    {
      if maxRows > 0 && i >= maxRows {
        break;
      }
      var row := rows[i];
      ReplayNext(net, rows, i);
      var resetNow;
      if row.resetId.Some? && row.resetId != marker {
        marker := row.resetId;
        resetNow := true;
      } else {
        resetNow := row.resetId.None? && IsPolicy(row) && !lastPolicy;
      }
      if resetNow {
        hidden := net.zero;
      }
      if IsPolicy(row) {
        var (raw, hidden') := net.act(row.obs, hidden);
        policyRows, actions, hidden := policyRows + 1, actions + [raw], hidden';
      } else {
        holdRows, hidden := holdRows + 1, net.zero;
      }
      lastPolicy := IsPolicy(row);
      i := i + 1;
    }
    assert rows[..|rows|] == rows;
  }

  method SanitizeAction(raw: Raw) returns (action: Action, finite: bool)
    ensures action == Sanitize(raw) && finite == AllFinite(raw)
  {
    action, finite := ZERO, true;
    for i := 0 to if |raw| < ACTIONS then |raw| else ACTIONS
      invariant forall k :: 0 <= k < ACTIONS ==>
                  action[k] == if k < i && raw[k].Finite? then raw[k].value else 0.0
      invariant finite == forall k :: 0 <= k < i ==> raw[k].Finite?
    {
      if raw[i].Finite? {
        action := action[i := raw[i].value];
      } else {
        finite := false;
      }
    }
  }

  class Runtime {
    const setup: Setup
    var hidden: Hidden
    var lastAction: Action
    var actionSeq: nat
    var memoryClean: bool
    var resetId: nat
    var reconnectCount: nat
    var steps: nat
    var nonfiniteFrames: nat
    var timeoutFrames: nat
    var log: seq<Row>
    ghost var trace: seq<Event>
    ghost var at: seq<nat>

    ghost function Past(): History
      reads this
    {
      History(trace, actionSeq, steps, reconnectCount, log, at)
    }

    /** Memory is the fold since the last reset, clean memory is empty memory, and resets are counted. */
    ghost predicate MemoryInv()
      reads this
    {
      && (setup.clip.Some? ==> setup.clip.value >= 0.0)
      && actionSeq < SEQ_MODULUS
      && hidden == MemoryAfter(setup.net, trace)
      && (memoryClean <==> SinceReset(trace) == [])
      && (memoryClean ==> lastAction == ZERO)
      && resetId == Resets(trace)
    }

    /** Between steps the last action is the one of the last inference too. */
    ghost predicate Ready()
      reads this
    {
      MemoryInv() && lastAction == LastAction(setup, trace)
    }

    constructor (setup: Setup)
      requires setup.clip.Some? ==> setup.clip.value >= 0.0
      ensures this.setup == setup && Ready() && Past() == Start()
    {
      this.setup := setup;
      hidden, lastAction, actionSeq, memoryClean := setup.net.zero, ZERO, 0, true;
      resetId, reconnectCount, steps, nonfiniteFrames, timeoutFrames := 0, 0, 0, 0, 0;
      log, trace, at := [], [], [];
    }

    method ResetPolicyMemory(force: bool)
      requires MemoryInv()
      modifies this`hidden, this`lastAction, this`memoryClean, this`resetId, this`trace
      ensures Ready() && memoryClean && hidden == setup.net.zero && lastAction == ZERO
      ensures trace == if old(memoryClean) && !force then old(trace) else old(trace) + [Cleared]
    {
      if memoryClean && !force {
        CleanAction(setup, trace);
        return;
      }
      ResetExtends(setup.net, trace);
      hidden := setup.net.zero;
      lastAction := ZERO;
      memoryClean := true;
      resetId := resetId + 1;
      trace := trace + [Cleared];
    }

    method MakeTargetPacket(target: Target) returns (packet: Option<Packet>)
      modifies this`actionSeq
      ensures actionSeq < SEQ_MODULUS && actionSeq == NextNumber(old(actionSeq))
      ensures packet == if setup.packable(target) then Some(TargetPacket(old(actionSeq), target)) else None
    {
      var sequence := actionSeq;
      actionSeq := NextNumber(actionSeq);
      packet := if setup.packable(target) then Some(TargetPacket(sequence, target)) else None;
    }

    /** Runs after the target packet, so the sequence number it steps back to is that packet's. */
    method MakeCommandPacket(command: Command) returns (packet: Option<Packet>)
      ensures packet == if setup.commandPackable(command)
                        then Some(CommandPacket((actionSeq + SEQ_MODULUS - 1) % SEQ_MODULUS, command)) else None
    {
      packet := if setup.commandPackable(command)
                then Some(CommandPacket((actionSeq + SEQ_MODULUS - 1) % SEQ_MODULUS, command)) else None;
    }

    method ActFromState(state: State, command: Command) returns (r: Option<(Action, set<Flag>, Obs)>)
      requires MemoryInv()
      modifies this`hidden, this`memoryClean, this`nonfiniteFrames, this`trace
      ensures MemoryInv()
      ensures var o := setup.observe(state, command, lastAction);
              if o.None? then r.None? && hidden == old(hidden) && memoryClean == old(memoryClean) && trace == old(trace)
              else
                var (obs, bad) := o.value;
                var raw := RawOf(setup.net, old(trace), obs);
                && hidden == setup.net.act(obs, old(hidden)).1 && !memoryClean
                && r == Some((Sanitize(raw), if bad || !AllFinite(raw) then {NonFiniteValue} else {}, obs))
                && trace == old(trace) + [Inferred(obs)]
    {
      hide Fold, SinceReset, Resets;
      var o := setup.observe(state, command, lastAction);
      if o.None? {
        return None;
      }
      var (obs, bad) := o.value;
      var (out, hidden') := setup.net.act(obs, hidden);
      var action, finite := SanitizeAction(out);
      var flags: set<Flag> := if bad then {NonFiniteValue} else {};
      if !finite {
        flags := flags + {NonFiniteValue};
      }
      assert flags == if bad || !finite then {NonFiniteValue} else {};
      if NonFiniteValue in flags {
        nonfiniteFrames := nonfiniteFrames + 1;
      }
      InferenceExtends(setup.net, trace, obs);
      hidden := hidden';
      memoryClean := false;
      trace := trace + [Inferred(obs)];
      return Some((action, flags, obs));
    }

    /** Holds the current joint positions with empty memory. */
    method HoldStep(state: State, command: Command, flag: Flag) returns (r: Option<StepOutput>)
      requires MemoryInv()
      modifies this`hidden, this`lastAction, this`actionSeq, this`memoryClean, this`resetId, this`nonfiniteFrames,
               this`trace
      ensures Ready() && memoryClean
      ensures Stepped(trace, actionSeq, r) == HoldStepped(setup, old(trace), old(actionSeq), state, command, flag)
    {
      hide SinceReset, LastAction, MemoryAfter, Resets;
      ResetPolicyMemory(false);
      var o := setup.observe(state, command, lastAction);
      if o.None? {
        return None;
      }
      var (obs, bad) := o.value;
      var flags := {flag};
      if bad {
        flags := flags + {NonFiniteValue};
        nonfiniteFrames := nonfiniteFrames + 1;
      }
      assert flags == if bad then {flag, NonFiniteValue} else {flag};
      var packet := MakeTargetPacket(setup.hold(state));
      if packet.None? {
        return None;
      }
      var commandPacket := MakeCommandPacket(command);
      if commandPacket.None? {
        return None;
      }
      return Some(StepOutput(ZERO, flags, obs, false, packet.value, commandPacket.value));
    }

    method PolicyStep(state: State, command: Command) returns (r: Option<StepOutput>)
      requires Ready()
      modifies this`hidden, this`actionSeq, this`memoryClean, this`nonfiniteFrames, this`trace
      ensures MemoryInv()
      ensures Stepped(trace, actionSeq, r) == PolicyStepped(setup, old(trace), old(actionSeq), state, command)
    {
      hide Sanitize, LastAction, SinceReset, MemoryAfter, Resets, RawOf, AllFinite;
      var acted := ActFromState(state, command);
      if acted.None? {
        return None;
      }
      var (action, flags, obs) := acted.value;
      var target := setup.decode(command, action);
      if target.None? {
        return None;
      }
      var packet := MakeTargetPacket(target.value);
      if packet.None? {
        return None;
      }
      var commandPacket := MakeCommandPacket(command);
      if commandPacket.None? {
        return None;
      }
      return Some(StepOutput(action, flags, obs, true, packet.value, commandPacket.value));
    }

    /** One step does to the history, the packet number and the output what the history says. */
    method StepFromState(state: State, age: real, sample: Sample) returns (r: Option<StepOutput>)
      requires Ready()
      modifies this`hidden, this`lastAction, this`actionSeq, this`memoryClean, this`resetId, this`nonfiniteFrames,
               this`trace
      ensures MemoryInv()
      ensures Stepped(trace, actionSeq, r) == AfterStep(setup, old(trace), old(actionSeq), state, age, sample)
    {
      hide MemoryInv(), LastAction, HoldStepped, PolicyStepped;
      if !sample.active {
        r := HoldStep(state, sample.command, CommandInactive);
      } else if age > STATE_TIMEOUT_S {
        r := HoldStep(state, sample.command, StateTimeout);
      } else if !setup.outputEnabled(state) {
        r := HoldStep(state, sample.command, OutputDisabledHold);
      } else {
        r := PolicyStep(state, sample.command);
      }
    }

    /** Books a step whose packets were written. */
    method RecordStep(out: StepOutput)
      requires MemoryInv() && (out.inferred ==> trace != [])
      requires ClipAction(setup.clip, out.action) == LastAction(setup, trace)
      modifies this`steps, this`lastAction, this`timeoutFrames, this`log, this`at
      ensures Ready() && steps == old(steps) + 1
      ensures log == old(log) + [Row(Some(Resets(trace)), out.flags, out.obs, out.action)]
      ensures at == old(at) + [if out.inferred then |trace| - 1 else |trace|]
    {
      hide SinceReset, MemoryAfter, Resets, ClipAction;
      steps := steps + 1;
      lastAction := ClipAction(setup.clip, out.action);
      CleanAction(setup, trace);
      if StateTimeout in out.flags {
        timeoutFrames := timeoutFrames + 1;
      }
      log := log + [Row(Some(resetId), out.flags, out.obs, out.action)];
      at := at + [if out.inferred then |trace| - 1 else |trace|];
    }

    /** One pass of the inner loop does to the whole history what the history says. */
    method OneTick(tick: Tick) returns (r: Option<LoopResult>)
      requires Ready()
      modifies this
      ensures MemoryInv() && (r.None? ==> Ready())
      ensures (Past(), r) == AfterTick(setup, old(Past()), tick)
    {
      hide AfterStep, MemoryAfter, SinceReset, Resets, LastAction, IsHold;
      match tick
      case NotDue =>
        return None;
      case Disconnected =>
        return Some(Reconnect);
      case Broken =>
        return Some(Fatal);
      case NoState =>
        steps, timeoutFrames := steps + 1, timeoutFrames + 1;
        return None;
      case Due(state, age, sample, write) =>
        ghost var before, number := trace, actionSeq;
        var out := StepFromState(state, age, sample);
        if out.None? {
          return Some(Fatal);
        }
        match write {
          case WriteTimeout => return Some(Reconnect);
          case WriteFailed => return Some(Fatal);
          case Written =>
        }
        StepRecordable(setup, before, number, state, age, sample);
        RecordStep(out.value);
        return None;
    }

    /** The reconnecting loop over everything the outside world does in each session. */
    method RunCdc(sessions: seq<seq<Tick>>, maxSteps: nat) returns (r: LoopResult)
      requires Ready()
      modifies this
      ensures MemoryInv() && (Past(), r) == AfterRun(setup, old(Past()), sessions, maxSteps)
    {
      hide AfterSession, MemoryAfter, SinceReset, Resets, LastAction, Enough;
      var i := 0;
      while !Enough(steps, maxSteps) && i < |sessions|
        invariant i <= |sessions| && Ready()
        invariant AfterRun(setup, Past(), sessions[i..], maxSteps) == AfterRun(setup, old(Past()), sessions, maxSteps)
      {
        assert sessions[i..][0] == sessions[i] && sessions[i..][1..] == sessions[i + 1..];
        ResetPolicyMemory(true);
        var stop := Session(sessions[i], maxSteps);
        i := i + 1;
        if stop.None? {
          return Done;
        }
        if stop.value != Reconnect {
          return stop.value;
        }
        reconnectCount := reconnectCount + 1;
        ResetPolicyMemory(true);
      }
      assert i == |sessions| ==> sessions[i..] == [];
      return Done;
    }

    /** One connection, until the outside world falls silent, enough steps were made or something fails. */
    method Session(ticks: seq<Tick>, maxSteps: nat) returns (stop: Option<LoopResult>)
      requires Ready()
      modifies this
      ensures MemoryInv() && (stop.None? ==> Ready())
      ensures (Past(), stop) == AfterSession(setup, old(Past()), ticks, maxSteps)
    {
      hide AfterTick, MemoryAfter, SinceReset, Resets, LastAction, Enough;
      var j := 0;
      stop := None;
      while !Enough(steps, maxSteps) && j < |ticks| && stop.None?
        invariant j <= |ticks| && MemoryInv() && (stop.None? ==> Ready())
        invariant stop.Some? ==> (Past(), stop) == AfterSession(setup, old(Past()), ticks, maxSteps)
        invariant stop.None? ==>
                    AfterSession(setup, Past(), ticks[j..], maxSteps)
                    == AfterSession(setup, old(Past()), ticks, maxSteps)
        decreases |ticks| - j
      {
        assert ticks[j..][0] == ticks[j] && ticks[j..][1..] == ticks[j + 1..];
        stop := OneTick(ticks[j]);
        j := j + 1;
      }
      assert j == |ticks| ==> ticks[j..] == [];
    }
  }
}
