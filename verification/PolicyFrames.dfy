/**
 * The payload layouts of the policy packets, their decoding, and the simulator's own checks on
 * received packets. A 32-bit float is its bit pattern.
 */
module PolicyFrames {
  import opened Wrappers
  import opened FrameCheck
  import opened FrameParser
  import opened FrameStream
  import opened BitNumbers

  type Word32 = bv32
  type F2 = s: seq<Word32> | |s| == 2 witness [0, 0]
  type F3 = s: seq<Word32> | |s| == 3 witness [0, 0, 0]
  type F4 = s: seq<Word32> | |s| == 4 witness [0, 0, 0, 0]
  type F8 = s: seq<Word32> | |s| == 8 witness [0, 0, 0, 0, 0, 0, 0, 0]

  const MSG_STATE: Byte := 0x01
  const MSG_TARGET: Byte := 0x02
  const MSG_LATENCY: Byte := 0x03
  const MSG_COMMAND: Byte := 0x04
  const STATE_V1_SIZE: nat := 92
  const STATE_V2_SIZE: nat := 124
  const STATE_SIZE: nat := 140
  const TARGET_SIZE: nat := 28
  const LATENCY_SIZE: nat := 12
  const COMMAND_SIZE: nat := 36

  datatype StateFrame = StateFrame(
    number: Word32, tickMs: Word32, targetSeq: Word32, targetAgeMs: bv16,
    targetValid: Byte, rcSwitchR: Byte, outputEnabled: Byte,
    baseAngVel: F3, gravity: F3, jointPos: F4, jointVel: F4, wheelPos: F2, wheelVel: F2,
    targetJointPos: F4, hipTorque: F4, wheelTorque: F2, wheelMotorTorque: F2)

  datatype TargetFrame = TargetFrame(number: Word32, jointPos: F4, wheelVel: F2)

  datatype CommandFrame = CommandFrame(number: Word32, command: F8)

  datatype LatencyFrame = LatencyFrame(policySeq: Word32, rxToOutputUs: Word32, outputEnabled: Byte)

  // ----- words and bytes -----

  function Byte0(w: Word32): Byte { (w & 0xFF) as Byte }

  function Byte1(w: Word32): Byte { ((w >> 8) & 0xFF) as Byte }

  function Byte2(w: Word32): Byte { ((w >> 16) & 0xFF) as Byte }

  function Byte3(w: Word32): Byte { (w >> 24) as Byte }

  /** The sequence number a frame header keeps of a 32-bit one. */
  function Low16(w: Word32): bv16 { (w & 0xFFFF) as bv16 }

  lemma BytesOfJoin(a: Byte, b: Byte, c: Byte, d: Byte)
    ensures var w := Join(a, b, c, d); Byte0(w) == a && Byte1(w) == b && Byte2(w) == c && Byte3(w) == d
  {
  }

  function Bytes32(w: Word32): (b: seq<Byte>)
    ensures |b| == 4
  {
    [Byte0(w), Byte1(w), Byte2(w), Byte3(w)]
  }

  function Bytes16(w: bv16): (b: seq<Byte>)
    ensures |b| == 2
  {
    [LowByte(w), HighByte(w)]
  }

  function Words(ws: seq<Word32>): (b: seq<Byte>)
    ensures |b| == 4 * |ws|
  {
    if ws == [] then [] else Bytes32(ws[0]) + Words(ws[1..])
  }

  function WordAt(b: seq<Byte>, k: nat): Word32
    requires k + 4 <= |b|
  {
    Join(b[k], b[k + 1], b[k + 2], b[k + 3])
  }

  lemma BytesOfWordAt(b: seq<Byte>, k: nat)
    requires k + 4 <= |b|
    ensures Bytes32(WordAt(b, k)) == b[k..k + 4]
  {
    hide Join, Byte0, Byte1, Byte2, Byte3;
    BytesOfJoin(b[k], b[k + 1], b[k + 2], b[k + 3]);
  }

  lemma Bytes32Injective(v: Word32, w: Word32)
    ensures Bytes32(v) == Bytes32(w) ==> v == w
  {
  }

  lemma {:induction false} WordsInjective(v: seq<Word32>, w: seq<Word32>)
    requires |v| == |w|
    ensures Words(v) == Words(w) ==> v == w
  {
    hide Bytes32;
    if v != [] && Words(v) == Words(w) {
      assert Bytes32(v[0]) == Words(v)[..4] && Bytes32(w[0]) == Words(w)[..4];
      assert Words(v[1..]) == Words(v)[4..] && Words(w[1..]) == Words(w)[4..];
      Bytes32Injective(v[0], w[0]);
      WordsInjective(v[1..], w[1..]);
    }
  }

  lemma {:induction false} WordsConcat(v: seq<Word32>, w: seq<Word32>)
    ensures Words(v + w) == Words(v) + Words(w)
  {
    hide Bytes32;
    if v == [] {
      assert v + w == w;
    } else {
      assert (v + w)[1..] == v[1..] + w;
      WordsConcat(v[1..], w);
    }
  }

  lemma NoWords()
    ensures Words([]) == []
  {
  }

  lemma OneWord(w: Word32)
    ensures Words([w]) == Bytes32(w)
  {
    assert [w][1..] == [];
  }

  // ----- payloads -----

  function Floats(f: StateFrame): (ws: seq<Word32>)
    ensures |ws| == 30
  {
    f.baseAngVel + f.gravity + f.jointPos + f.jointVel + f.wheelPos + f.wheelVel
    + f.targetJointPos + f.hipTorque + f.wheelTorque + f.wheelMotorTorque
  }

  function StateHeader(f: StateFrame): (b: seq<Byte>)
    ensures |b| == 20
  {
    Bytes32(f.tickMs) + Bytes32(f.number) + Bytes32(f.targetSeq) + Bytes16(f.targetAgeMs)
    + [f.targetValid, f.rcSwitchR, f.outputEnabled, 0, 0, 0]
  }

  function StatePayload(f: StateFrame): (b: seq<Byte>)
    ensures |b| == STATE_SIZE
  {
    StateHeader(f) + Words(Floats(f))
  }

  function TargetPayload(f: TargetFrame): (b: seq<Byte>)
    ensures |b| == TARGET_SIZE
  {
    Bytes32(f.number) + Words(f.jointPos + f.wheelVel)
  }

  function CommandPayload(f: CommandFrame): (b: seq<Byte>)
    ensures |b| == COMMAND_SIZE
  {
    Bytes32(f.number) + Words(f.command)
  }

  predicate IsFinite(w: Word32) { w & 0x7F80_0000 != 0x7F80_0000 }

  predicate AllFinite(ws: seq<Word32>) { forall i :: 0 <= i < |ws| ==> IsFinite(ws[i]) }

  /** The first array in packing order that holds a non-finite value. */
  function FirstNonFinite(arrays: seq<(string, seq<Word32>)>): Option<string> {
    if arrays == [] then None
    else if !AllFinite(arrays[0].1) then Some(arrays[0].0)
    else FirstNonFinite(arrays[1..])
  }

  function Pack(msgType: Byte, number: Word32, payload: seq<Byte>, bad: Option<string>)
    : Result<seq<Byte>, ProtocolError>
  {
    if bad.Some? then Err(NonFinite(bad.value)) else PackMessage(msgType, payload, Low16(number))
  }

  function StateArrays(f: StateFrame): (a: seq<(string, seq<Word32>)>)
    ensures |a| == 10
  {
    [("base_ang_vel_body", f.baseAngVel), ("projected_gravity", f.gravity), ("joint_pos", f.jointPos),
     ("joint_vel", f.jointVel), ("wheel_pos", f.wheelPos), ("wheel_vel", f.wheelVel),
     ("target_joint_pos", f.targetJointPos), ("hip_torque", f.hipTorque), ("wheel_torque", f.wheelTorque),
     ("wheel_motor_torque", f.wheelMotorTorque)]
  }

  function PackPolicyState(f: StateFrame): Result<seq<Byte>, ProtocolError> {
    Pack(MSG_STATE, f.number, StatePayload(f), FirstNonFinite(StateArrays(f)))
  }

  function PackPolicyTarget(f: TargetFrame): Result<seq<Byte>, ProtocolError> {
    Pack(MSG_TARGET, f.number, TargetPayload(f), FirstNonFinite([("joint_pos", f.jointPos), ("wheel_vel", f.wheelVel)]))
  }

  function PackPolicyCommand(f: CommandFrame): Result<seq<Byte>, ProtocolError> {
    Pack(MSG_COMMAND, f.number, CommandPayload(f), FirstNonFinite([("command", f.command)]))
  }

  // ----- when packing succeeds -----

  /** The exponent field of the word's number is not all ones. */
  ghost predicate Ordinary(w: Word32) { (w as nat) / 0x80_0000 % 0x100 != 0xFF }

  ghost predicate AllOrdinary(ws: seq<Word32>) { forall i :: 0 <= i < |ws| ==> Ordinary(ws[i]) }

  lemma JoinOfBytes(w: Word32)
    ensures Join(Byte0(w), Byte1(w), Byte2(w), Byte3(w)) == w
  {
  }

  lemma FiniteByBytes(a: Byte, b: Byte, c: Byte, d: Byte)
    ensures IsFinite(Join(a, b, c, d)) <==> !(d & 0x7F == 0x7F && c & 0x80 == 0x80)
  {
    MaskOfBytes(a, b, c, d);
  }

  lemma FiniteIsOrdinary(w: Word32)
    ensures IsFinite(w) <==> Ordinary(w)
  {
    hide *;
    var a, b, c, d := Byte0(w), Byte1(w), Byte2(w), Byte3(w);
    JoinOfBytes(w);
    FiniteByBytes(a, b, c, d);
    TopBit(c);
    LowBits(d);
    OrdinaryByBytes(a, b, c, d);
  }

  lemma OrdinaryByBytes(a: Byte, b: Byte, c: Byte, d: Byte)
    ensures Ordinary(Join(a, b, c, d)) <==> !(d as nat % 0x80 == 0x7F && c as nat / 0x80 == 1)
  {
    hide Join;
    FourBytes(a, b, c, d);
    ByteRange(a);
    ByteRange(b);
    ByteRange(c);
    ByteRange(d);
    ExponentOfBytes(a as nat, b as nat, c as nat, d as nat);
  }

  lemma AllFiniteIsOrdinary(ws: seq<Word32>)
    ensures AllFinite(ws) <==> AllOrdinary(ws)
  {
    hide IsFinite, Ordinary;
    forall i | 0 <= i < |ws| ensures IsFinite(ws[i]) <==> Ordinary(ws[i]) {
      FiniteIsOrdinary(ws[i]);
    }
  }

  ghost predicate NamesFirst(arrays: seq<(string, seq<Word32>)>, j: nat, name: string) {
    && j < |arrays| && arrays[j].0 == name && !AllOrdinary(arrays[j].1)
    && forall i :: 0 <= i < j ==> AllOrdinary(arrays[i].1)
  }

  lemma {:induction false} FirstNonFiniteSpec(arrays: seq<(string, seq<Word32>)>)
    ensures FirstNonFinite(arrays).None? ==> forall i :: 0 <= i < |arrays| ==> AllOrdinary(arrays[i].1)
    ensures FirstNonFinite(arrays).Some? ==> exists j: nat :: NamesFirst(arrays, j, FirstNonFinite(arrays).value)
  {
    hide AllFinite, AllOrdinary;
    if arrays != [] {
      AllFiniteIsOrdinary(arrays[0].1);
      var rest := arrays[1..];
      FirstNonFiniteSpec(rest);
      if !AllOrdinary(arrays[0].1) {
        assert NamesFirst(arrays, 0, FirstNonFinite(arrays).value);
      } else if FirstNonFinite(rest).Some? {
        var j: nat :| NamesFirst(rest, j, FirstNonFinite(rest).value);
        assert NamesFirst(arrays, j + 1, FirstNonFinite(rest).value);
      } else {
        assert forall i :: 0 < i < |arrays| ==> arrays[i] == rest[i - 1];
      }
    }
  }

  /** The j-th float array of a state among its thirty floats. */
  function StateArray(ws: seq<Word32>, j: nat): seq<Word32>
    requires |ws| == 30
  {
    match j
    case 0 => ws[0..3] case 1 => ws[3..6] case 2 => ws[6..10] case 3 => ws[10..14] case 4 => ws[14..16]
    case 5 => ws[16..18] case 6 => ws[18..22] case 7 => ws[22..26] case 8 => ws[26..28] case _ => ws[28..30]
  }

  function StateName(j: nat): string {
    match j
    case 0 => "base_ang_vel_body" case 1 => "projected_gravity" case 2 => "joint_pos" case 3 => "joint_vel"
    case 4 => "wheel_pos" case 5 => "wheel_vel" case 6 => "target_joint_pos" case 7 => "hip_torque"
    case 8 => "wheel_torque" case _ => "wheel_motor_torque"
  }

  lemma ArrayAt(f: StateFrame, j: nat)
    requires j < 10
    ensures StateArrays(f)[j] == (StateName(j), StateArray(Floats(f), j))
  {
    FloatsParts(f);
    hide Floats;
  }

  /** The array of the given position holds a non-finite word, and no array before it does. */
  ghost predicate StateFaultAt(f: StateFrame, j: nat) {
    && j < 10 && !AllOrdinary(StateArray(Floats(f), j))
    && forall i :: 0 <= i < j ==> AllOrdinary(StateArray(Floats(f), i))
  }

  /** A state packs exactly when all its floats are finite; otherwise the first faulty array is named. */
  lemma StatePacks(f: StateFrame)
    ensures PackPolicyState(f).Ok? <==> AllOrdinary(Floats(f))
    ensures PackPolicyState(f).Err? ==>
              exists j: nat :: StateFaultAt(f, j) && PackPolicyState(f) == Err(NonFinite(StateName(j)))
  {
    hide Floats, StateArrays, FirstNonFinite, AllOrdinary, StatePayload, Encode, StateName, StateArray;
    FirstNonFiniteSpec(StateArrays(f));
    forall i | 0 <= i < 10
      ensures StateArrays(f)[i] == (StateName(i), StateArray(Floats(f), i))
    {
      ArrayAt(f, i);
    }
    FloatsOrdinary(f);
    if FirstNonFinite(StateArrays(f)).Some? {
      var name := FirstNonFinite(StateArrays(f)).value;
      var j: nat :| NamesFirst(StateArrays(f), j, name);
      assert StateFaultAt(f, j);
    }
  }

  lemma OrdinaryConcat(v: seq<Word32>, w: seq<Word32>)
    ensures AllOrdinary(v + w) <==> AllOrdinary(v) && AllOrdinary(w)
  {
    hide Ordinary;
    assert forall i :: 0 <= i < |v| ==> (v + w)[i] == v[i];
    assert forall i :: 0 <= i < |w| ==> (v + w)[|v| + i] == w[i];
  }

  lemma FloatsOrdinary(f: StateFrame)
    ensures AllOrdinary(Floats(f)) <==> forall i :: 0 <= i < 10 ==> AllOrdinary(StateArrays(f)[i].1)
  {
    hide AllOrdinary;
    var a := f.baseAngVel + f.gravity;
    var b := a + f.jointPos;
    var c := b + f.jointVel;
    var d := c + f.wheelPos;
    var e := d + f.wheelVel;
    var g := e + f.targetJointPos;
    var h := g + f.hipTorque;
    var k := h + f.wheelTorque;
    OrdinaryConcat(f.baseAngVel, f.gravity);
    OrdinaryConcat(a, f.jointPos);
    OrdinaryConcat(b, f.jointVel);
    OrdinaryConcat(c, f.wheelPos);
    OrdinaryConcat(d, f.wheelVel);
    OrdinaryConcat(e, f.targetJointPos);
    OrdinaryConcat(g, f.hipTorque);
    OrdinaryConcat(h, f.wheelTorque);
    OrdinaryConcat(k, f.wheelMotorTorque);
    var s := StateArrays(f);
    assert s[0].1 == f.baseAngVel && s[1].1 == f.gravity && s[2].1 == f.jointPos && s[3].1 == f.jointVel;
    assert s[4].1 == f.wheelPos && s[5].1 == f.wheelVel && s[6].1 == f.targetJointPos;
    assert s[7].1 == f.hipTorque && s[8].1 == f.wheelTorque && s[9].1 == f.wheelMotorTorque;
  }

  /** The same for targets and commands. */
  lemma TargetPacks(f: TargetFrame)
    ensures PackPolicyTarget(f).Ok? <==> AllOrdinary(f.jointPos) && AllOrdinary(f.wheelVel)
    ensures PackPolicyTarget(f).Err? ==>
              PackPolicyTarget(f) == Err(NonFinite(if AllOrdinary(f.jointPos) then "wheel_vel" else "joint_pos"))
  {
    hide AllOrdinary, AllFinite, TargetPayload, Encode;
    AllFiniteIsOrdinary(f.jointPos);
    AllFiniteIsOrdinary(f.wheelVel);
    var arrays: seq<(string, seq<Word32>)> := [("joint_pos", f.jointPos), ("wheel_vel", f.wheelVel)];
    assert arrays[1..] == [("wheel_vel", f.wheelVel)] && arrays[1..][1..] == [];
    assert FirstNonFinite(arrays[1..][1..]) == None;
    assert FirstNonFinite(arrays[1..]) == if AllFinite(f.wheelVel) then None else Some("wheel_vel");
  }

  lemma CommandPacks(f: CommandFrame)
    ensures PackPolicyCommand(f).Ok? <==> AllOrdinary(f.command)
    ensures PackPolicyCommand(f).Err? ==> PackPolicyCommand(f) == Err(NonFinite("command"))
  {
    hide AllOrdinary, AllFinite, CommandPayload, Encode;
    AllFiniteIsOrdinary(f.command);
    var arrays: seq<(string, seq<Word32>)> := [("command", f.command)];
    assert arrays[1..] == [] && FirstNonFinite(arrays[1..]) == None;
    assert FirstNonFinite(arrays) == if AllFinite(f.command) then None else Some("command");
  }

  // ----- reading -----

  class PayloadReader {
    const payload: seq<Byte>
    var offset: nat

    constructor (payload: seq<Byte>)
      ensures this.payload == payload && offset == 0
    {
      this.payload := payload;
      offset := 0;
    }

    method U8() returns (b: Byte)
      requires offset + 1 <= |payload|
      modifies this
      ensures offset == old(offset) + 1 && b == payload[old(offset)]
    {
      b := payload[offset];
      offset := offset + 1;
    }

    method U16() returns (w: bv16)
      requires offset + 2 <= |payload|
      modifies this
      ensures offset == old(offset) + 2 && Bytes16(w) == payload[old(offset)..old(offset) + 2]
    {
      hide Word, LowByte, HighByte;
      w := Word(payload[offset], payload[offset + 1]);
      BytesOfWord(payload[offset], payload[offset + 1]);
      offset := offset + 2;
    }

    method U32() returns (w: Word32)
      requires offset + 4 <= |payload|
      modifies this
      ensures offset == old(offset) + 4 && w == WordAt(payload, old(offset))
    {
      w := WordAt(payload, offset);
      offset := offset + 4;
    }

    method F32s(n: nat) returns (ws: seq<Word32>)
      requires offset + 4 * n <= |payload|
      modifies this
      ensures offset == old(offset) + 4 * n
      ensures |ws| == n && Words(ws) == payload[old(offset)..offset]
    {
      hide WordAt, Words, Bytes32;
      NoWords();
      ws := [];
      for i := 0 to n
        invariant offset == old(offset) + 4 * i && |ws| == i
        invariant Words(ws) == payload[old(offset)..offset]
      {
        BytesOfWordAt(payload, offset);
        var w := U32();
        WordsConcat(ws, [w]);
        OneWord(w);
        ws := ws + [w];
      }
    }

    method Skip(n: nat)
      modifies this
      ensures offset == old(offset) + n
    {
      offset := offset + n;
    }
  }

  function Zeros(n: nat): (b: seq<Byte>)
    ensures |b| == n && forall i :: 0 <= i < n ==> b[i] == 0
  {
    seq(n, _ => 0)
  }

  /** A state payload of an older layout, brought to the current one: padding and missing floats read as 0. */
  function Current(payload: seq<Byte>): seq<Byte>
    requires payload != [] && 20 <= |payload| <= STATE_SIZE
  {
    payload[..17] + [0, 0, 0] + payload[20..] + Zeros(STATE_SIZE - |payload|)
  }

  lemma {:induction false} WordsZero(n: nat)
    ensures Words(seq(n, _ => 0 as Word32)) == Zeros(4 * n)
  {
    if n == 0 {
    } else {
      WordsZero(n - 1);
      assert seq(n, _ => 0 as Word32)[1..] == seq(n - 1, _ => 0 as Word32);
      assert Byte0(0) == 0 && Byte1(0) == 0 && Byte2(0) == 0 && Byte3(0) == 0;
    }
  }

  lemma HeaderParts(b: seq<Byte>)
    requires |b| >= 20
    ensures b[..17] == b[0..4] + b[4..8] + b[8..12] + b[12..14] + [b[14], b[15], b[16]]
  {
  }

  method DecodeStateHeader(r: PayloadReader)
    returns (tickMs: Word32, number: Word32, targetSeq: Word32, targetAgeMs: bv16, targetValid: Byte,
             rcSwitchR: Byte, outputEnabled: Byte)
    requires r.offset == 0 && |r.payload| >= 20
    modifies r
    ensures r.offset == 20
    ensures Bytes32(tickMs) + Bytes32(number) + Bytes32(targetSeq) + Bytes16(targetAgeMs)
            + [targetValid, rcSwitchR, outputEnabled, 0, 0, 0] == r.payload[..17] + [0, 0, 0]
  {
    hide WordAt, Bytes32, Bytes16;
    BytesOfWordAt(r.payload, 0);
    BytesOfWordAt(r.payload, 4);
    BytesOfWordAt(r.payload, 8);
    tickMs := r.U32();
    number := r.U32();
    targetSeq := r.U32();
    targetAgeMs := r.U16();
    targetValid := r.U8();
    rcSwitchR := r.U8();
    outputEnabled := r.U8();
    r.Skip(3);
    HeaderParts(r.payload);
  }

  method DecodeStateFloats(r: PayloadReader) returns (ws: seq<Word32>)
    requires r.offset == 20 && |r.payload| in {STATE_V1_SIZE, STATE_V2_SIZE, STATE_SIZE}
    modifies r
    ensures |ws| == 30 && Words(ws) == r.payload[20..] + Zeros(STATE_SIZE - |r.payload|)
  {
    hide Words;
    var size := |r.payload|;
    var always := r.F32s(18);
    var targets: seq<Word32>, wheels: seq<Word32> := seq(8, _ => 0), seq(4, _ => 0);
    WordsZero(8);
    WordsZero(4);
    if size != STATE_V1_SIZE {
      targets := r.F32s(8);
    }
    if size == STATE_SIZE {
      wheels := r.F32s(4);
    }
    WordsConcat(always + targets, wheels);
    WordsConcat(always, targets);
    return always + targets + wheels;
  }

  lemma ReadsCurrent(frame: StateFrame, payload: seq<Byte>, ws: seq<Word32>)
    requires 20 <= |payload| <= STATE_SIZE && |ws| == 30
    requires StateHeader(frame) == payload[..17] + [0, 0, 0]
    requires Words(ws) == payload[20..] + Zeros(STATE_SIZE - |payload|)
    requires frame.baseAngVel == ws[..3] && frame.gravity == ws[3..6] && frame.jointPos == ws[6..10]
             && frame.jointVel == ws[10..14]
    requires frame.wheelPos == ws[14..16] && frame.wheelVel == ws[16..18] && frame.targetJointPos == ws[18..22]
    requires frame.hipTorque == ws[22..26] && frame.wheelTorque == ws[26..28] && frame.wheelMotorTorque == ws[28..30]
    ensures StatePayload(frame) == Current(payload)
  {
    hide Words, StateHeader, Zeros;
    assert Floats(frame) == ws;
  }

  /** All three state layouts: what is read packs to the payload again, brought to the current layout. */
  method DecodeStatePayload(payload: seq<Byte>) returns (result: Result<StateFrame, ProtocolError>)
    ensures |payload| in {STATE_V1_SIZE, STATE_V2_SIZE, STATE_SIZE} ==>
              result.Ok? && StatePayload(result.value) == Current(payload)
    ensures |payload| !in {STATE_V1_SIZE, STATE_V2_SIZE, STATE_SIZE} ==> result == Err(StatePayloadSize(|payload|))
    ensures forall f :: payload == StatePayload(f) ==> result == Ok(f)
  {
    hide Bytes32, Bytes16, Words;
    var size := |payload|;
    if size != STATE_V1_SIZE && size != STATE_V2_SIZE && size != STATE_SIZE {
      return Err(StatePayloadSize(size));
    }
    var r := new PayloadReader(payload);
    var tickMs, number, targetSeq, targetAgeMs, targetValid, rcSwitchR, outputEnabled := DecodeStateHeader(r);
    var ws := DecodeStateFloats(r);
    var frame := StateFrame(number, tickMs, targetSeq, targetAgeMs, targetValid, rcSwitchR, outputEnabled,
                            ws[..3], ws[3..6], ws[6..10], ws[10..14], ws[14..16], ws[16..18],
                            ws[18..22], ws[22..26], ws[26..28], ws[28..30]);
    ReadsCurrent(frame, payload, ws);
    hide StatePayload, Current, Floats, StateHeader;
    forall f | payload == StatePayload(f) ensures frame == f {
      CurrentIsItself(f);
      StatePayloadInjective(frame, f);
    }
    return Ok(frame);
  }

  lemma CurrentIsItself(f: StateFrame)
    ensures Current(StatePayload(f)) == StatePayload(f)
  {
  }

  lemma FloatsParts(f: StateFrame)
    ensures var w := Floats(f);
            && f.baseAngVel == w[..3] && f.gravity == w[3..6] && f.jointPos == w[6..10] && f.jointVel == w[10..14]
            && f.wheelPos == w[14..16] && f.wheelVel == w[16..18] && f.targetJointPos == w[18..22]
            && f.hipTorque == w[22..26] && f.wheelTorque == w[26..28] && f.wheelMotorTorque == w[28..30]
  {
  }

  lemma FloatsInjective(f: StateFrame, g: StateFrame)
    requires Floats(f) == Floats(g)
    ensures f.baseAngVel == g.baseAngVel && f.gravity == g.gravity && f.jointPos == g.jointPos
            && f.jointVel == g.jointVel
    ensures f.wheelPos == g.wheelPos && f.wheelVel == g.wheelVel && f.targetJointPos == g.targetJointPos
    ensures f.hipTorque == g.hipTorque && f.wheelTorque == g.wheelTorque && f.wheelMotorTorque == g.wheelMotorTorque
  {
    hide Floats;
    FloatsParts(f);
    FloatsParts(g);
  }

  lemma Bytes16Injective(v: bv16, w: bv16)
    ensures Bytes16(v) == Bytes16(w) ==> v == w
  {
  }

  lemma HeaderFields(f: StateFrame)
    ensures var h := StateHeader(f);
            && Bytes32(f.tickMs) == h[0..4] && Bytes32(f.number) == h[4..8] && Bytes32(f.targetSeq) == h[8..12]
            && Bytes16(f.targetAgeMs) == h[12..14]
            && h[14] == f.targetValid && h[15] == f.rcSwitchR && h[16] == f.outputEnabled
  {
    hide Bytes32, Bytes16;
  }

  lemma HeaderInjective(f: StateFrame, g: StateFrame)
    requires StateHeader(f) == StateHeader(g)
    ensures f.tickMs == g.tickMs && f.number == g.number && f.targetSeq == g.targetSeq && f.targetAgeMs == g.targetAgeMs
    ensures f.targetValid == g.targetValid && f.rcSwitchR == g.rcSwitchR && f.outputEnabled == g.outputEnabled
  {
    hide Bytes32, Bytes16, StateHeader;
    HeaderFields(f);
    HeaderFields(g);
    Bytes32Injective(f.tickMs, g.tickMs);
    Bytes32Injective(f.number, g.number);
    Bytes32Injective(f.targetSeq, g.targetSeq);
    Bytes16Injective(f.targetAgeMs, g.targetAgeMs);
  }

  lemma StatePayloadInjective(f: StateFrame, g: StateFrame)
    requires StatePayload(f) == StatePayload(g)
    ensures f == g
  {
    hide StateHeader, Words, Floats;
    var b := StatePayload(f);
    assert StateHeader(f) == b[..20] && StateHeader(g) == b[..20];
    assert Words(Floats(f)) == b[20..] && Words(Floats(g)) == b[20..];
    HeaderInjective(f, g);
    WordsInjective(Floats(f), Floats(g));
    FloatsInjective(f, g);
  }

  method DecodePolicyState(m: Message) returns (result: Result<StateFrame, ProtocolError>)
    ensures m.msgType != MSG_STATE ==> result == Err(UnexpectedMessageType(m.msgType, MSG_STATE))
    ensures m.msgType == MSG_STATE && |m.payload| !in {STATE_V1_SIZE, STATE_V2_SIZE, STATE_SIZE} ==>
              result == Err(StatePayloadSize(|m.payload|))
    ensures m.msgType == MSG_STATE && |m.payload| in {STATE_V1_SIZE, STATE_V2_SIZE, STATE_SIZE} ==>
              result.Ok? && StatePayload(result.value) == Current(m.payload)
    ensures m.msgType == MSG_STATE ==> forall f :: m.payload == StatePayload(f) ==> result == Ok(f)
  {
    if m.msgType != MSG_STATE {
      return Err(UnexpectedMessageType(m.msgType, MSG_STATE));
    }
    result := DecodeStatePayload(m.payload);
  }

  method DecodePolicyTarget(m: Message) returns (result: Result<TargetFrame, ProtocolError>)
    ensures m.msgType != MSG_TARGET ==> result == Err(UnexpectedMessageType(m.msgType, MSG_TARGET))
    ensures m.msgType == MSG_TARGET && |m.payload| != TARGET_SIZE ==> result == Err(TargetPayloadSize(|m.payload|))
    ensures m.msgType == MSG_TARGET && |m.payload| == TARGET_SIZE ==>
              result.Ok? && TargetPayload(result.value) == m.payload
  {
    hide Bytes32, WordAt, Words;
    if m.msgType != MSG_TARGET {
      return Err(UnexpectedMessageType(m.msgType, MSG_TARGET));
    }
    if |m.payload| != TARGET_SIZE {
      return Err(TargetPayloadSize(|m.payload|));
    }
    var r := new PayloadReader(m.payload);
    BytesOfWordAt(m.payload, 0);
    var number := r.U32();
    var jointPos := r.F32s(4);
    var wheelVel := r.F32s(2);
    WordsConcat(jointPos, wheelVel);
    return Ok(TargetFrame(number, jointPos, wheelVel));
  }

  method DecodePolicyLatency(m: Message) returns (result: Result<LatencyFrame, ProtocolError>)
    ensures m.msgType != MSG_LATENCY ==> result == Err(UnexpectedMessageType(m.msgType, MSG_LATENCY))
    ensures m.msgType == MSG_LATENCY && |m.payload| != LATENCY_SIZE ==> result == Err(LatencyPayloadSize(|m.payload|))
    ensures m.msgType == MSG_LATENCY && |m.payload| == LATENCY_SIZE ==>
              && result.Ok?
              && Bytes32(result.value.policySeq) + Bytes32(result.value.rxToOutputUs)
                  + [result.value.outputEnabled] == m.payload[..9]
  {
    hide Bytes32, WordAt;
    if m.msgType != MSG_LATENCY {
      return Err(UnexpectedMessageType(m.msgType, MSG_LATENCY));
    }
    if |m.payload| != LATENCY_SIZE {
      return Err(LatencyPayloadSize(|m.payload|));
    }
    var r := new PayloadReader(m.payload);
    BytesOfWordAt(m.payload, 0);
    BytesOfWordAt(m.payload, 4);
    var policySeq := r.U32();
    var rxToOutputUs := r.U32();
    var outputEnabled := r.U8();
    assert m.payload[..9] == m.payload[0..4] + m.payload[4..8] + [m.payload[8]];
    return Ok(LatencyFrame(policySeq, rxToOutputUs, outputEnabled));
  }

  // ----- the simulator's side -----

  datatype UnpackError = TooShort | InvalidSof | WrongType | WrongVersion | LengthMismatch | WrongPayloadLength
      | CrcMismatch | SeqMismatch | NonFiniteField

  function UnpackMessage(packet: seq<Byte>, msgType: Byte, payloadSize: nat, seqOffset: nat)
    : Result<seq<Byte>, UnpackError>
    requires seqOffset + 4 <= payloadSize
  {
    if |packet| < 10 then Err(TooShort)
    else if packet[0] != SOF0 || packet[1] != SOF1 then Err(InvalidSof)
    else if packet[2] != msgType then Err(WrongType)
    else if packet[3] != VERSION then Err(WrongVersion)
    else
      var len := Length(packet[4], packet[5]);
      if |packet| != 8 + len + 2 then Err(LengthMismatch)
      else if len != payloadSize then Err(WrongPayloadLength)
      else if !CheckPasses(packet) then Err(CrcMismatch)
      else
        var payload := packet[8..|packet| - 2];
        if Low16(WordAt(payload, seqOffset)) != Word(packet[6], packet[7]) then Err(SeqMismatch)
        else Ok(payload)
  }

  /**
   * The simulator accepts exactly the packets the runtime would pack for that payload: right type and
   * size, and a header sequence number that is the payload's, cut to 16 bits.
   */
  lemma UnpackAcceptsExactlyPacked(packet: seq<Byte>, payload: seq<Byte>, msgType: Byte, payloadSize: nat,
                                   seqOffset: nat)
    requires seqOffset + 4 <= payloadSize <= MAX_PAYLOAD_SIZE
    ensures UnpackMessage(packet, msgType, payloadSize, seqOffset) == Ok(payload) <==>
            |payload| == payloadSize && packet == Encode(Message(msgType, Low16(WordAt(payload, seqOffset)), payload))
  {
    hide CheckPasses, Word, Length, Low16, WordAt;
    if UnpackMessage(packet, msgType, payloadSize, seqOffset) == Ok(payload) {
      assert packet[..HEADER_SIZE + payloadSize + CRC_SIZE] == packet;
      assert Classify(MAX_PAYLOAD_SIZE, packet) == Frame(Message(msgType, Word(packet[6], packet[7]), payload),
                                                          |packet|);
      hide Encode, Classify;
      AcceptsOnlyEncoded(MAX_PAYLOAD_SIZE, packet);
    }
    if |payload| == payloadSize && packet == Encode(Message(msgType, Low16(WordAt(payload, seqOffset)), payload)) {
      var m := Message(msgType, Low16(WordAt(payload, seqOffset)), payload);
      hide Encode;
      AcceptsEncoded(MAX_PAYLOAD_SIZE, m, []);
      assert Encode(m) + [] == packet;
      assert packet[..|packet|] == packet;
    }
  }

  lemma HeadWord(number: Word32, before: seq<Byte>, after: seq<Byte>)
    ensures WordAt(before + Bytes32(number) + after, |before|) == number
  {
  }

  /** Every state, target and command packet the runtime packs passes the simulator's checks and yields its payload. */
  lemma PackedPacketsUnpack(state: StateFrame, target: TargetFrame, command: CommandFrame)
    ensures PackPolicyState(state).Ok? ==>
              UnpackMessage(PackPolicyState(state).value, MSG_STATE, STATE_SIZE, 4) == Ok(StatePayload(state))
    ensures PackPolicyTarget(target).Ok? ==>
              UnpackMessage(PackPolicyTarget(target).value, MSG_TARGET, TARGET_SIZE, 0) == Ok(TargetPayload(target))
    ensures PackPolicyCommand(command).Ok? ==>
              UnpackMessage(PackPolicyCommand(command).value, MSG_COMMAND, COMMAND_SIZE, 0)
              == Ok(CommandPayload(command))
  {
    hide Bytes32, Bytes16, Words, WordAt, UnpackMessage, Encode, Low16, FirstNonFinite;
    var s, t, c := StatePayload(state), TargetPayload(target), CommandPayload(command);
    var after := Bytes32(state.targetSeq) + Bytes16(state.targetAgeMs)
                 + [state.targetValid, state.rcSwitchR, state.outputEnabled, 0, 0, 0] + Words(Floats(state));
    assert s == Bytes32(state.tickMs) + Bytes32(state.number) + after;
    HeadWord(state.number, Bytes32(state.tickMs), after);
    assert t == [] + Bytes32(target.number) + Words(target.jointPos + target.wheelVel);
    HeadWord(target.number, [], Words(target.jointPos + target.wheelVel));
    assert c == [] + Bytes32(command.number) + Words(command.command);
    HeadWord(command.number, [], Words(command.command));
    UnpackAcceptsExactlyPacked(Encode(Message(MSG_STATE, Low16(state.number), s)), s, MSG_STATE, STATE_SIZE, 4);
    UnpackAcceptsExactlyPacked(Encode(Message(MSG_TARGET, Low16(target.number), t)), t, MSG_TARGET, TARGET_SIZE, 0);
    UnpackAcceptsExactlyPacked(Encode(Message(MSG_COMMAND, Low16(command.number), c)), c, MSG_COMMAND, COMMAND_SIZE, 0);
  }

  // ----- the simulator's fields, read at their offsets -----

  function WordsFrom(b: seq<Byte>, k: nat, n: nat): (ws: seq<Word32>)
    requires k + 4 * n <= |b|
    ensures |ws| == n && forall i :: 0 <= i < n ==> ws[i] == WordAt(b, k + 4 * i)
  {
    seq(n, i requires 0 <= i < n => WordAt(b, k + 4 * i))
  }

  function UnpackPolicyState(packet: seq<Byte>): Result<StateFrame, UnpackError> {
    match UnpackMessage(packet, MSG_STATE, STATE_SIZE, 4)
    case Err(e) => Err(e)
    case Ok(p) =>
      if |p| != STATE_SIZE then Err(WrongPayloadLength)
      else
        var ws := WordsFrom(p, 20, 30);
        if !AllFinite(ws) then Err(NonFiniteField)
        else Ok(StateFrame(WordAt(p, 4), WordAt(p, 0), WordAt(p, 8), Word(p[12], p[13]), p[14], p[15], p[16],
                           ws[0..3], ws[3..6], ws[6..10], ws[10..14], ws[14..16], ws[16..18],
                           ws[18..22], ws[22..26], ws[26..28], ws[28..30]))
  }

  function UnpackPolicyTarget(packet: seq<Byte>): Result<TargetFrame, UnpackError> {
    match UnpackMessage(packet, MSG_TARGET, TARGET_SIZE, 0)
    case Err(e) => Err(e)
    case Ok(p) =>
      if |p| != TARGET_SIZE then Err(WrongPayloadLength)
      else
        var ws := WordsFrom(p, 4, 6);
        if !AllFinite(ws) then Err(NonFiniteField) else Ok(TargetFrame(WordAt(p, 0), ws[0..4], ws[4..6]))
  }

  function UnpackPolicyCommand(packet: seq<Byte>): Result<CommandFrame, UnpackError> {
    match UnpackMessage(packet, MSG_COMMAND, COMMAND_SIZE, 0)
    case Err(e) => Err(e)
    case Ok(p) =>
      if |p| != COMMAND_SIZE then Err(WrongPayloadLength)
      else
        var ws := WordsFrom(p, 4, 8);
        if !AllFinite(ws) then Err(NonFiniteField) else Ok(CommandFrame(WordAt(p, 0), ws))
  }

  /** Words are laid out one behind the other, four bytes each. */
  lemma {:induction false} WordsStand(before: seq<Byte>, ws: seq<Word32>, after: seq<Byte>, i: nat)
    requires i < |ws|
    ensures WordAt(before + Words(ws) + after, |before| + 4 * i) == ws[i]
    decreases |ws|
  {
    hide WordAt, Bytes32;
    var rest := Words(ws[1..]);
    if i == 0 {
      HeadWord(ws[0], before, rest + after);
      assert before + Bytes32(ws[0]) + (rest + after) == before + Words(ws) + after;
    } else {
      WordsStand(before + Bytes32(ws[0]), ws[1..], after, i - 1);
      assert before + Bytes32(ws[0]) + rest + after == before + Words(ws) + after;
    }
  }

  lemma WordsFromStand(before: seq<Byte>, ws: seq<Word32>)
    ensures WordsFrom(before + Words(ws), |before|, |ws|) == ws
  {
    hide WordAt, Words;
    var b := before + Words(ws);
    assert b + [] == b;
    forall i | 0 <= i < |ws| ensures WordAt(b, |before| + 4 * i) == ws[i] {
      WordsStand(before, ws, [], i);
    }
  }

  /** The first byte of a word is its lowest: the number is built up from the left. */
  lemma LittleEndian(w: Word32)
    ensures var b := Bytes32(w);
            w as nat == b[0] as nat + 0x100 * b[1] as nat + 0x1_0000 * b[2] as nat + 0x100_0000 * b[3] as nat
  {
    hide Join, Byte0, Byte1, Byte2, Byte3;
    JoinOfBytes(w);
    FourBytes(Byte0(w), Byte1(w), Byte2(w), Byte3(w));
  }

  // ----- what the simulator reads -----

  /** What the runtime packs of a state whose floats are finite, the simulator reads back field by field. */
  lemma StateReachesSimulator(f: StateFrame)
    requires AllOrdinary(Floats(f))
    ensures PackPolicyState(f).Ok? && UnpackPolicyState(PackPolicyState(f).value) == Ok(f)
  {
    hide *;
    StatePacks(f);
    PackedStateUnpacks(f);
    StateFields(f);
    AllFiniteIsOrdinary(Floats(f));
    StateAssembled(f, PackPolicyState(f).value);
  }

  lemma PackedStateUnpacks(f: StateFrame)
    requires PackPolicyState(f).Ok?
    ensures UnpackMessage(PackPolicyState(f).value, MSG_STATE, STATE_SIZE, 4) == Ok(StatePayload(f))
  {
    hide *;
    PackedPacketsUnpack(f, TargetFrame(0, [0, 0, 0, 0], [0, 0]), CommandFrame(0, [0, 0, 0, 0, 0, 0, 0, 0]));
  }

  /** The offsets of the fields of a state payload. */
  lemma StateFields(f: StateFrame)
    ensures var p := StatePayload(f);
            && WordAt(p, 0) == f.tickMs && WordAt(p, 4) == f.number && WordAt(p, 8) == f.targetSeq
            && Word(p[12], p[13]) == f.targetAgeMs
            && p[14] == f.targetValid && p[15] == f.rcSwitchR && p[16] == f.outputEnabled
            && WordsFrom(p, 20, 30) == Floats(f)
  {
    hide WordAt, Bytes32, Words, Word, LowByte, HighByte, Floats;
    var p, ws := StatePayload(f), Words(Floats(f));
    var a, b, c := Bytes32(f.tickMs), Bytes32(f.number), Bytes32(f.targetSeq);
    var rest := Bytes16(f.targetAgeMs) + [f.targetValid, f.rcSwitchR, f.outputEnabled, 0, 0, 0] + ws;
    assert p == [] + a + (b + c + rest) && p == a + b + (c + rest) && p == (a + b) + c + rest;
    HeadWord(f.tickMs, [], b + c + rest);
    HeadWord(f.number, a, c + rest);
    HeadWord(f.targetSeq, a + b, rest);
    WordParts(f.targetAgeMs);
    WordsFromStand(StateHeader(f), Floats(f));
  }

  lemma StateAssembled(f: StateFrame, packet: seq<Byte>)
    requires UnpackMessage(packet, MSG_STATE, STATE_SIZE, 4) == Ok(StatePayload(f))
    requires var p := StatePayload(f);
             && WordAt(p, 0) == f.tickMs && WordAt(p, 4) == f.number && WordAt(p, 8) == f.targetSeq
             && Word(p[12], p[13]) == f.targetAgeMs
             && p[14] == f.targetValid && p[15] == f.rcSwitchR && p[16] == f.outputEnabled
             && WordsFrom(p, 20, 30) == Floats(f) && AllFinite(Floats(f))
    ensures UnpackPolicyState(packet) == Ok(f)
  {
    hide UnpackMessage, WordAt, Word, StatePayload, WordsFrom, Floats, AllFinite;
    FloatsParts(f);
  }

  /** The same for targets and commands. */
  lemma TargetReachesSimulator(f: TargetFrame)
    requires AllOrdinary(f.jointPos) && AllOrdinary(f.wheelVel)
    ensures PackPolicyTarget(f).Ok? && UnpackPolicyTarget(PackPolicyTarget(f).value) == Ok(f)
  {
    hide *;
    TargetPacks(f);
    PackedTargetUnpacks(f);
    var ws := f.jointPos + f.wheelVel;
    OrdinaryConcat(f.jointPos, f.wheelVel);
    AllFiniteIsOrdinary(ws);
    TargetFields(f);
    TargetAssembled(f, PackPolicyTarget(f).value);
  }

  lemma PackedTargetUnpacks(f: TargetFrame)
    requires PackPolicyTarget(f).Ok?
    ensures UnpackMessage(PackPolicyTarget(f).value, MSG_TARGET, TARGET_SIZE, 0) == Ok(TargetPayload(f))
  {
    hide *;
    PackedPacketsUnpack(BlankState(), f, CommandFrame(0, [0, 0, 0, 0, 0, 0, 0, 0]));
  }

  function BlankState(): StateFrame {
    StateFrame(0, 0, 0, 0, 0, 0, 0, [0, 0, 0], [0, 0, 0], [0, 0, 0, 0], [0, 0, 0, 0], [0, 0], [0, 0],
               [0, 0, 0, 0], [0, 0, 0, 0], [0, 0], [0, 0])
  }

  lemma TargetFields(f: TargetFrame)
    ensures var p := TargetPayload(f); WordAt(p, 0) == f.number && WordsFrom(p, 4, 6) == f.jointPos + f.wheelVel
  {
    hide WordAt, Bytes32, Words;
    var ws := f.jointPos + f.wheelVel;
    HeadWord(f.number, [], Words(ws));
    assert [] + Bytes32(f.number) + Words(ws) == TargetPayload(f);
    WordsFromStand(Bytes32(f.number), ws);
  }

  lemma TargetAssembled(f: TargetFrame, packet: seq<Byte>)
    requires UnpackMessage(packet, MSG_TARGET, TARGET_SIZE, 0) == Ok(TargetPayload(f))
    requires var p := TargetPayload(f); WordAt(p, 0) == f.number && WordsFrom(p, 4, 6) == f.jointPos + f.wheelVel
    requires AllFinite(f.jointPos + f.wheelVel)
    ensures UnpackPolicyTarget(packet) == Ok(f)
  {
    hide UnpackMessage, WordAt, TargetPayload, WordsFrom, AllFinite;
    var ws := f.jointPos + f.wheelVel;
    assert ws[0..4] == f.jointPos && ws[4..6] == f.wheelVel;
  }

  lemma CommandReachesSimulator(f: CommandFrame)
    requires AllOrdinary(f.command)
    ensures PackPolicyCommand(f).Ok? && UnpackPolicyCommand(PackPolicyCommand(f).value) == Ok(f)
  {
    hide *;
    CommandPacks(f);
    PackedCommandUnpacks(f);
    AllFiniteIsOrdinary(f.command);
    CommandFields(f);
    CommandAssembled(f, PackPolicyCommand(f).value);
  }

  lemma PackedCommandUnpacks(f: CommandFrame)
    requires PackPolicyCommand(f).Ok?
    ensures UnpackMessage(PackPolicyCommand(f).value, MSG_COMMAND, COMMAND_SIZE, 0) == Ok(CommandPayload(f))
  {
    hide *;
    PackedPacketsUnpack(BlankState(), TargetFrame(0, [0, 0, 0, 0], [0, 0]), f);
  }

  lemma CommandFields(f: CommandFrame)
    ensures var p := CommandPayload(f); WordAt(p, 0) == f.number && WordsFrom(p, 4, 8) == f.command
  {
    hide WordAt, Bytes32, Words;
    HeadWord(f.number, [], Words(f.command));
    assert [] + Bytes32(f.number) + Words(f.command) == CommandPayload(f);
    WordsFromStand(Bytes32(f.number), f.command);
  }

  lemma CommandAssembled(f: CommandFrame, packet: seq<Byte>)
    requires UnpackMessage(packet, MSG_COMMAND, COMMAND_SIZE, 0) == Ok(CommandPayload(f))
    requires var p := CommandPayload(f); WordAt(p, 0) == f.number && WordsFrom(p, 4, 8) == f.command
    requires AllFinite(f.command)
    ensures UnpackPolicyCommand(packet) == Ok(f)
  {
    hide UnpackMessage, WordAt, CommandPayload, WordsFrom, AllFinite;
  }
}
