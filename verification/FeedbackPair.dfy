/** The CAN frames: fixed-point angles, flags, and pairing of feedback head and tail. */
module FeedbackPair {
  import opened Wrappers
  import opened ModeRouting

  const FRAME_SIZE: nat := 8
  const SOF: nat := 0x33
  const EOF: nat := 0xEE
  const HEAD_ID: nat := 0x203
  const TAIL_ID: nat := 0x204
  const PAIR_TIMEOUT_NS: nat := 20_000_000
  const BULLET_SPEED: real := 23.5
  const I16_MIN: int := -32768
  const I16_MAX: int := 32767

  type Byte = b: int | 0 <= b < 256

  /** A business value: finite, or one of the non-finite floats. */
  datatype Float = Finite(value: real) | NonFinite

  datatype CommError = FrameLengthError | InvalidStartOfFrame | InvalidEndOfFrame | CorruptedFrame

  // ----- fixed point -----

  /** To the nearest integer, halves away from zero. */
  function Round(x: real): int {
    if x >= 0.0 then (x + 0.5).Floor else -((0.5 - x).Floor)
  }

  function ClampInt(i: int): (r: int)
    ensures I16_MIN <= r <= I16_MAX
  {
    if i < I16_MIN then I16_MIN else if i > I16_MAX then I16_MAX else i
  }

  function EncodeX100(v: Float): (r: int)
    ensures I16_MIN <= r <= I16_MAX
  {
    match v
    case NonFinite => 0
    case Finite(x) => ClampInt(Round(x * 100.0))
  }

  function DecodeX100(i: int): real { i as real / 100.0 }

  function ClampAngle(x: real): real {
    if x < DecodeX100(I16_MIN) then DecodeX100(I16_MIN) else if x > DecodeX100(I16_MAX) then DecodeX100(I16_MAX) else x
  }

  /** Every wire value survives decoding and encoding. */
  lemma EncodeDecode(i: int)
    requires I16_MIN <= i <= I16_MAX
    ensures EncodeX100(Finite(DecodeX100(i))) == i
  {
  }

  /** A finite value comes back within half a unit of its clamped self, and order is kept. */
  lemma DecodeEncode(x: real, y: real)
    ensures -0.005 <= DecodeX100(EncodeX100(Finite(x))) - ClampAngle(x) <= 0.005
    ensures -327.68 <= ClampAngle(x) <= 327.67 && (-327.68 <= x <= 327.67 ==> ClampAngle(x) == x)
    ensures EncodeX100(NonFinite) == 0
    ensures x <= y ==> EncodeX100(Finite(x)) <= EncodeX100(Finite(y))
  {
  }

  // ----- bytes -----

  function ToU16(i: int): nat
    requires I16_MIN <= i <= I16_MAX
  {
    if i < 0 then i + 65536 else i
  }

  function WriteI16(i: int): (b: seq<Byte>)
    requires I16_MIN <= i <= I16_MAX
    ensures |b| == 2
  {
    [ToU16(i) % 256, ToU16(i) / 256]
  }

  function ReadI16(lo: Byte, hi: Byte): (i: int)
    ensures I16_MIN <= i <= I16_MAX
  {
    var u := lo + 256 * hi;
    if u > I16_MAX then u - 65536 else u
  }

  lemma I16RoundTrip(i: int)
    requires I16_MIN <= i <= I16_MAX
    ensures ReadI16(WriteI16(i)[0], WriteI16(i)[1]) == i
  {
  }

  // ----- feedback -----

  datatype SelfFraction = Red | Blue

  datatype SensData = SensData(
    taskMode: TaskMode, selfFraction: SelfFraction, bulletSpeed: real,
    roll: Float, yaw: Float, pitch: Float, yawSpeed: Float,
    firePermit: bool, rawTaskMode: nat, mappedTaskMode: TaskMode)

  function FractionByte(f: SelfFraction): Byte { if f == Red then 0xAA else 0xBB }

  function FractionOf(b: Byte): SelfFraction { if b == 0xBB then Blue else Red }

  function TaskModeOf(b: Byte): Option<TaskMode> {
    if b == 1 then Some(AutoShot) else if b == 2 then Some(HitBigBuff)
    else if b == 3 then Some(HitSmallBuff) else if b == 4 then Some(HitOutpost) else None
  }

  function SerializePair(s: SensData): (r: (seq<Byte>, seq<Byte>))
    ensures |r.0| == FRAME_SIZE && |r.1| == FRAME_SIZE
  {
    ([SOF, WireValue(s.taskMode), FractionByte(s.selfFraction), 0]
     + WriteI16(EncodeX100(s.roll)) + WriteI16(EncodeX100(s.yaw)),
     WriteI16(EncodeX100(s.pitch)) + WriteI16(EncodeX100(s.yawSpeed)) + [if s.firePermit then 1 else 0, 0, 0, EOF])
  }

  function DeserializePair(head: seq<Byte>, tail: seq<Byte>): Result<SensData, CommError> {
    if |head| != FRAME_SIZE || |tail| != FRAME_SIZE then Err(FrameLengthError)
    else if head[0] != SOF then Err(InvalidStartOfFrame)
    else if tail[7] != EOF then Err(InvalidEndOfFrame)
    else match TaskModeOf(head[1])
      case None => Err(CorruptedFrame)
      case Some(mode) =>
        Ok(SensData(mode, FractionOf(head[2]), BULLET_SPEED,
                    Finite(DecodeX100(ReadI16(head[4], head[5]))), Finite(DecodeX100(ReadI16(head[6], head[7]))),
                    Finite(DecodeX100(ReadI16(tail[0], tail[1]))), Finite(DecodeX100(ReadI16(tail[2], tail[3]))),
                    tail[4] != 0, head[1], mode))
  }

  function Quantized(v: Float): Float { Finite(DecodeX100(EncodeX100(v))) }

  /** A serialized pair deserializes to the same data with quantized angles and the mode read off the wire. */
  lemma PairRoundTrip(s: SensData)
    ensures var (head, tail) := SerializePair(s);
            DeserializePair(head, tail) ==
            Ok(s.(bulletSpeed := BULLET_SPEED, roll := Quantized(s.roll), yaw := Quantized(s.yaw),
                  pitch := Quantized(s.pitch), yawSpeed := Quantized(s.yawSpeed),
                  rawTaskMode := WireValue(s.taskMode), mappedTaskMode := s.taskMode))
  {
    hide EncodeX100, DecodeX100;
    I16RoundTrip(EncodeX100(s.roll));
    I16RoundTrip(EncodeX100(s.yaw));
    I16RoundTrip(EncodeX100(s.pitch));
    I16RoundTrip(EncodeX100(s.yawSpeed));
  }

  /** The two bytes hold an angle in hundredths as a little-endian number in two's complement. */
  ghost predicate HoldsAngle(lo: Byte, hi: Byte, v: Float) {
    lo + 256 * hi == EncodeX100(v) % 65536
  }

  /** Where each field of a pair lies on the wire. */
  lemma PairLayout(s: SensData)
    ensures var (head, tail) := SerializePair(s);
            && 1 <= head[1] <= 4
            && [AutoShot, HitBigBuff, HitSmallBuff, HitOutpost][head[1] - 1] == s.taskMode
            && head[..4] == [0x33, head[1], if s.selfFraction == Red then 0xAA else 0xBB, 0]
            && HoldsAngle(head[4], head[5], s.roll) && HoldsAngle(head[6], head[7], s.yaw)
            && HoldsAngle(tail[0], tail[1], s.pitch) && HoldsAngle(tail[2], tail[3], s.yawSpeed)
            && tail[4..] == [if s.firePermit then 1 else 0, 0, 0, 0xEE]
  {
    hide EncodeX100;
  }

  /** A pair is accepted exactly when both frames are complete and marked and the mode is one of the four. */
  lemma AcceptedPairs(head: seq<Byte>, tail: seq<Byte>)
    ensures DeserializePair(head, tail).Ok? <==>
            |head| == 8 && |tail| == 8 && head[0] == 0x33 && tail[7] == 0xEE && 1 <= head[1] <= 4
  {
    hide DecodeX100;
  }

  lemma WireAngle(lo: Byte, hi: Byte)
    ensures WriteI16(EncodeX100(Finite(DecodeX100(ReadI16(lo, hi))))) == [lo, hi]
  {
    EncodeDecode(ReadI16(lo, hi));
    hide EncodeX100, DecodeX100;
  }

  /** Serializing what was read gives back the frames, apart from unused bytes and unusual flag bytes. */
  lemma PairWrittenBack(head: seq<Byte>, tail: seq<Byte>)
    requires DeserializePair(head, tail).Ok?
    ensures SerializePair(DeserializePair(head, tail).value) ==
            (head[2 := if head[2] == 0xBB then 0xBB else 0xAA][3 := 0],
             tail[4 := if tail[4] == 0 then 0 else 1][5 := 0][6 := 0])
  {
    hide EncodeX100, DecodeX100, WriteI16, ReadI16;
    WireAngle(head[4], head[5]);
    WireAngle(head[6], head[7]);
    WireAngle(tail[0], tail[1]);
    WireAngle(tail[2], tail[3]);
    var (head', tail') := SerializePair(DeserializePair(head, tail).value);
    assert head' == head[2 := if head[2] == 0xBB then 0xBB else 0xAA][3 := 0];
    assert tail' == tail[4 := if tail[4] == 0 then 0 else 1][5 := 0][6 := 0];
  }

  // ----- control -----

  datatype AimingState = NoAimingNoTarget | CommunicateNoCamera | AimingNoTarget | AimingWithTarget

  datatype ShotMode = DoNothing | AimOnly | AutoFire | ShotOnce

  datatype ShotBuffMode = ShotBuffOff | ShotBuffOn

  datatype CtrlData = CtrlData(yaw: Float, pitch: Float, shot: ShotMode, buff: ShotBuffMode, aiming: AimingState)

  function ShotCode(m: ShotMode): nat {
    match m case DoNothing => 0 case AimOnly => 1 case AutoFire => 2 case ShotOnce => 3
  }

  function AimingCode(a: AimingState): nat {
    match a case NoAimingNoTarget => 0 case CommunicateNoCamera => 1 case AimingNoTarget => 2 case AimingWithTarget => 3
  }

  /** Three two-bit fields, from the lowest bits up. */
  function Flags(c: CtrlData): Byte {
    ShotCode(c.shot) + 4 * (if c.buff == ShotBuffOn then 1 else 0) + 16 * AimingCode(c.aiming)
  }

  function ShotOf(flags: Byte): ShotMode {
    match flags % 4 case 1 => AimOnly case 2 => AutoFire case 3 => ShotOnce case _ => DoNothing
  }

  function BuffOf(flags: Byte): ShotBuffMode { if flags / 4 % 4 == 1 then ShotBuffOn else ShotBuffOff }

  function AimingOf(flags: Byte): AimingState {
    match flags / 16 % 4
    case 1 => CommunicateNoCamera
    case 2 => AimingNoTarget
    case 3 => AimingWithTarget
    case _ => NoAimingNoTarget
  }

  function SerializeControl(c: CtrlData, frameSeq: Byte): (r: seq<Byte>)
    ensures |r| == FRAME_SIZE
  {
    [SOF, Flags(c), frameSeq, EOF] + WriteI16(EncodeX100(c.pitch)) + WriteI16(EncodeX100(c.yaw))
  }

  function DeserializeControl(b: seq<Byte>): Result<CtrlData, CommError> {
    if |b| != FRAME_SIZE then Err(FrameLengthError)
    else if b[0] != SOF then Err(InvalidStartOfFrame)
    else if b[3] != EOF then Err(InvalidEndOfFrame)
    else Ok(CtrlData(Finite(DecodeX100(ReadI16(b[6], b[7]))), Finite(DecodeX100(ReadI16(b[4], b[5]))),
                     ShotOf(b[1]), BuffOf(b[1]), AimingOf(b[1])))
  }

  /** All three enums survive whatever the sequence byte, and the angles are quantized. */
  lemma ControlRoundTrip(c: CtrlData, frameSeq: Byte)
    ensures DeserializeControl(SerializeControl(c, frameSeq)) ==
            Ok(c.(yaw := Quantized(c.yaw), pitch := Quantized(c.pitch)))
  {
    hide EncodeX100, DecodeX100;
    I16RoundTrip(EncodeX100(c.yaw));
    I16RoundTrip(EncodeX100(c.pitch));
    FlagFields(c);
  }

  lemma FlagFields(c: CtrlData)
    ensures var f := Flags(c);
            && f % 4 == ShotCode(c.shot) && f / 16 == AimingCode(c.aiming)
            && f / 4 % 4 == if c.buff == ShotBuffOn then 1 else 0
  {
  }

  /** A control frame is accepted exactly when it is complete and marked at both places. */
  lemma AcceptedControl(b: seq<Byte>)
    ensures DeserializeControl(b).Ok? <==> |b| == 8 && b[0] == 0x33 && b[3] == 0xEE
  {
    hide DecodeX100;
  }

  /** Serializing what was read gives back the frame, apart from unused flag bits. */
  lemma ControlWrittenBack(b: seq<Byte>)
    requires DeserializeControl(b).Ok?
    ensures SerializeControl(DeserializeControl(b).value, b[2]) ==
            b[1 := b[1] % 4 + 4 * (if b[1] / 4 % 4 == 1 then 1 else 0) + 16 * (b[1] / 16 % 4)]
  {
    hide EncodeX100, DecodeX100, WriteI16, ReadI16;
    WireAngle(b[4], b[5]);
    WireAngle(b[6], b[7]);
  }

  /** Where each field of a control frame lies on the wire. */
  lemma ControlLayout(c: CtrlData, frameSeq: Byte)
    ensures var b := SerializeControl(c, frameSeq);
            && b[0] == 0x33 && b[2] == frameSeq && b[3] == 0xEE
            && HoldsAngle(b[4], b[5], c.pitch) && HoldsAngle(b[6], b[7], c.yaw)
            && [DoNothing, AimOnly, AutoFire, ShotOnce][b[1] % 4] == c.shot
            && [ShotBuffOff, ShotBuffOn, ShotBuffOff, ShotBuffOff][b[1] / 4 % 4] == c.buff
            && [NoAimingNoTarget, CommunicateNoCamera, AimingNoTarget, AimingWithTarget][b[1] / 16] == c.aiming
  {
    hide EncodeX100;
    FlagFields(c);
  }

  // ----- pairing -----

  datatype CanFrame = CanFrame(id: nat, data: seq<Byte>, at: nat)

  datatype Pending = Pending(data: seq<Byte>, receivedAt: nat)

  /** The last head since the last tail, as a position in the history. */
  function OpenHead(h: seq<CanFrame>): (r: Option<nat>)
    ensures r.Some? ==>
              && r.value < |h| && h[r.value].id == HEAD_ID
              && forall k :: r.value < k < |h| ==> h[k].id != HEAD_ID && h[k].id != TAIL_ID
    ensures r.None? ==>
              forall k :: 0 <= k < |h| && h[k].id == HEAD_ID ==> exists t :: k < t < |h| && h[t].id == TAIL_ID
  {
    if h == [] then None
    else
      var n := |h| - 1;
      if h[n].id == HEAD_ID then Some(n)
      else if h[n].id == TAIL_ID then None
      else OpenHead(h[..n])
  }

  /** A head from the future has age 0. */
  function Age(now: nat, earlier: nat): nat { if now >= earlier then now - earlier else 0 }

  /** What the decoder must answer to the last frame of h. */
  function Answer(h: seq<CanFrame>): Result<Option<SensData>, CommError>
    requires h != []
  {
    var n := |h| - 1;
    var head := OpenHead(h[..n]);
    if h[n].id != TAIL_ID || head.None? || Age(h[n].at, h[head.value].at) > PAIR_TIMEOUT_NS then Ok(None)
    else match DeserializePair(h[head.value].data, h[n].data)
      case Ok(s) => Ok(Some(s))
      case Err(e) => Err(e)
  }

  class FeedbackPairDecoder {
    var pendingHead: Option<Pending>
    ghost var history: seq<CanFrame>

    ghost predicate Valid()
      reads this
    {
      var head := OpenHead(history);
      pendingHead == if head.None? then None else Some(Pending(history[head.value].data, history[head.value].at))
    }

    constructor ()
      ensures Valid() && history == []
    {
      pendingHead := None;
      history := [];
    }

    method Push(frame: CanFrame) returns (r: Result<Option<SensData>, CommError>)
      requires Valid()
      modifies this
      ensures Valid() && history == old(history) + [frame]
      ensures r == Answer(history)
    {
      hide DeserializePair;
      ghost var h := history;
      history := history + [frame];
      assert history[..|h|] == h;
      if frame.id == HEAD_ID {
        pendingHead := Some(Pending(frame.data, frame.at));
        return Ok(None);
      }
      if frame.id == TAIL_ID {
        var head := pendingHead;
        pendingHead := None;
        if head.None? {
          return Ok(None);
        }
        if Age(frame.at, head.value.receivedAt) > PAIR_TIMEOUT_NS {
          return Ok(None);
        }
        var s := DeserializePair(head.value.data, frame.data);
        if s.Err? {
          return Err(s.error);
        }
        return Ok(Some(s.value));
      }
      return Ok(None);
    }
  }

  /** The tail at position t is answered from the head at position k. */
  ghost predicate Uses(h: seq<CanFrame>, t: nat, k: nat) {
    t < |h| && h[t].id == TAIL_ID && OpenHead(h[..t]) == Some(k)
  }

  /** A tail uses the latest head since the previous tail, and no head serves two tails. */
  lemma NoHeadTwice(h: seq<CanFrame>, t: nat, u: nat, k: nat, l: nat)
    requires t < u && Uses(h, t, k) && Uses(h, u, l)
    ensures k < t < l < u
  {
  }

  /** The tail at the end of h comes at most 20 ms after the head at k, with no other head or tail in between. */
  ghost predicate FreshPair(h: seq<CanFrame>, k: nat) {
    var n := |h| - 1;
    && k < n && h[k].id == HEAD_ID && h[n].id == TAIL_ID
    && (forall m :: k < m < n ==> h[m].id != HEAD_ID && h[m].id != TAIL_ID)
    && h[n].at <= h[k].at + 20_000_000
  }

  lemma {:induction false} OpenHeadIs(h: seq<CanFrame>, k: nat)
    requires k < |h| && h[k].id == HEAD_ID && forall m :: k < m < |h| ==> h[m].id != HEAD_ID && h[m].id != TAIL_ID
    ensures OpenHead(h) == Some(k)
  {
    if k < |h| - 1 {
      OpenHeadIs(h[..|h| - 1], k);
    }
  }

  /**
   * A tail yields data exactly when a fresh head precedes it and the two frames are well formed, and
   * then their data; it yields an error exactly when they are not.
   */
  lemma DataNeedsFreshPair(h: seq<CanFrame>, s: SensData)
    requires h != []
    ensures Answer(h) == Ok(Some(s)) <==>
            exists k: nat :: FreshPair(h, k) && DeserializePair(h[k].data, h[|h| - 1].data) == Ok(s)
    ensures Answer(h).Err? <==>
            exists k: nat :: FreshPair(h, k) && DeserializePair(h[k].data, h[|h| - 1].data).Err?
  {
    hide DeserializePair;
    var n := |h| - 1;
    var head := OpenHead(h[..n]);
    if Answer(h) == Ok(Some(s)) {
      assert FreshPair(h, head.value);
    }
    if Answer(h).Err? {
      assert FreshPair(h, head.value);
    }
    forall k: nat | FreshPair(h, k)
      ensures head == Some(k)
    {
      OpenHeadIs(h[..n], k);
    }
  }
}
