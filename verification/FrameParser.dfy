/**
 * The resynchronising stream parser. `Classify` says what stands at the front of a byte string;
 * `Scan` is the plain left-to-right scan of a whole stream that the incremental parser must match.
 */
module FrameParser {
  import opened Wrappers
  import opened FrameCheck

  const SOF0: Byte := 0xA5
  const SOF1: Byte := 0x5A
  const VERSION: Byte := 1
  const MAX_PAYLOAD_SIZE: nat := 160
  const HEADER_SIZE: nat := 8
  const CRC_SIZE: nat := 2

  datatype Message = Message(msgType: Byte, frameSeq: bv16, payload: seq<Byte>)

  datatype ProtocolError =
    | StatePayloadSize(size: nat)
    | TargetPayloadSize(size: nat)
    | LatencyPayloadSize(size: nat)
    | UnexpectedMessageType(actual: Byte, expected: Byte)
    | PayloadTooLarge(length: nat, max: nat)
    | NonFinite(name: string)

  /** Value of a little-endian length field. */
  function Length(lo: Byte, hi: Byte): nat { Value(lo) + 256 * Value(hi) }

  function Value(b: Byte): nat { b as nat }

  predicate SofAt(s: seq<Byte>, i: nat) {
    i + 1 < |s| && s[i] == SOF0 && s[i + 1] == SOF1
  }

  // ----- reference scan -----

  datatype Verdict =
    | Bad                                  // no frame starts here, whatever follows
    | NeedMore                             // undecided until more bytes arrive
    | Frame(message: Message, size: nat)   // a valid frame of this many bytes

  function PayloadLen(s: seq<Byte>): nat
    requires |s| >= HEADER_SIZE
  {
    Length(s[4], s[5])
  }

  function Classify(max: nat, s: seq<Byte>): (v: Verdict)
    ensures v.Bad? ==> |s| > 0
    ensures v.Frame? ==> 0 < v.size <= |s|
  {
    if |s| < 2 then NeedMore
    else if !SofAt(s, 0) then Bad
    else if |s| < HEADER_SIZE then NeedMore
    else
      var len := PayloadLen(s);
      if s[3] != VERSION || len > max then Bad
      else if |s| < HEADER_SIZE + len + CRC_SIZE then NeedMore
      else if !CheckPasses(s[..HEADER_SIZE + len + CRC_SIZE]) then Bad
      else Frame(Message(s[2], Word(s[6], s[7]), s[HEADER_SIZE..HEADER_SIZE + len]), HEADER_SIZE + len + CRC_SIZE)
  }

  datatype ScanResult = ScanResult(messages: seq<Message>, rest: seq<Byte>)

  function Scan(max: nat, s: seq<Byte>): ScanResult
    decreases |s|
  {
    match Classify(max, s)
    case NeedMore => ScanResult([], s)
    case Bad => Scan(max, s[1..])
    case Frame(m, size) =>
      var r := Scan(max, s[size..]);
      ScanResult([m] + r.messages, r.rest)
  }

  // ----- the parser -----

  method FindSof(buffer: seq<Byte>) returns (start: Option<nat>)
    ensures start.Some? ==> SofAt(buffer, start.value)
    ensures forall i :: 0 <= i < (if start.Some? then start.value else |buffer|) ==> !SofAt(buffer, i)
  {
    var i := 0;
    while i + 1 < |buffer|
      invariant forall k :: 0 <= k < i ==> !SofAt(buffer, k)
    {
      if buffer[i] == SOF0 && buffer[i + 1] == SOF1 {
        return Some(i);
      }
      i := i + 1;
    }
    return None;
  }

  class StreamParser {
    const maxPayloadSize: nat
    var buffer: seq<Byte>

    constructor (maxPayloadSize: nat)
      ensures this.maxPayloadSize == maxPayloadSize && buffer == []
    {
      this.maxPayloadSize := maxPayloadSize;
      buffer := [];
    }

    method DropNoise()
      modifies this
      ensures buffer == if |old(buffer)| > 1 then old(buffer)[|old(buffer)| - 1..] else old(buffer)
    {
      if |buffer| > 1 {
        var dropLen := |buffer| - 1;
        buffer := buffer[dropLen..];
      }
    }

    /** Decides about the frame whose marker stands at the front of the buffer. */
    method Front() returns (v: Verdict)
      requires SofAt(buffer, 0)
      ensures v == Classify(maxPayloadSize, buffer)
    {
      hide Word, Crc, Value;
      if |buffer| < HEADER_SIZE {
        return NeedMore;
      }
      var msgType, version := buffer[2], buffer[3];
      var payloadLen := Length(buffer[4], buffer[5]);
      var frameSeq := Word(buffer[6], buffer[7]);
      if version != VERSION || payloadLen > maxPayloadSize {
        return Bad;
      }
      var frameLen := HEADER_SIZE + payloadLen + CRC_SIZE;
      if |buffer| < frameLen {
        return NeedMore;
      }
      var expected := Word(buffer[HEADER_SIZE + payloadLen], buffer[HEADER_SIZE + payloadLen + 1]);
      var actual := Crc16(buffer[..HEADER_SIZE + payloadLen]);
      assert buffer[..frameLen][..frameLen - 2] == buffer[..HEADER_SIZE + payloadLen];
      if actual != expected {
        return Bad;
      }
      return Frame(Message(msgType, frameSeq, buffer[HEADER_SIZE..HEADER_SIZE + payloadLen]), frameLen);
    }

    /** Appends data and takes out every complete frame. */
    method Feed(data: seq<Byte>) returns (messages: seq<Message>)
      modifies this
      ensures ScanResult(messages, buffer) == Scan(maxPayloadSize, old(buffer) + data)
    {
      hide Classify, SofAt;
      buffer := buffer + data;
      messages := [];
      ghost var all := Scan(maxPayloadSize, buffer);
      while true
        invariant messages + Scan(maxPayloadSize, buffer).messages == all.messages
        invariant Scan(maxPayloadSize, buffer).rest == all.rest
        decreases |buffer|
      {
        var found := FindSof(buffer);
        if found.None? {
          AllNoise(maxPayloadSize, buffer);
          DropNoise();
          break;
        }
        var start := found.value;
        ScanNoise(maxPayloadSize, buffer, start);
        MarkerMoves(buffer, start);
        if start > 0 {
          buffer := buffer[start..];
        }
        var front := Front();
        match front
        case NeedMore =>
          break;
        case Bad =>
          buffer := buffer[1..];
        case Frame(message, frameLen) =>
          messages := messages + [message];
          buffer := buffer[frameLen..];
      }
    }
  }

  lemma MarkerMoves(s: seq<Byte>, start: nat)
    requires SofAt(s, start)
    ensures SofAt(s[start..], 0)
  {
  }

  /** Positions before the first marker are all bad, so the scan skips straight to it. */
  lemma {:induction false} ScanNoise(max: nat, s: seq<Byte>, start: nat)
    requires start <= |s| && (start < |s| || start == 0)
    requires forall i :: 0 <= i < start ==> !SofAt(s, i)
    ensures Scan(max, s) == Scan(max, s[start..])
    decreases start
  {
    hide CheckPasses, Word, Length;
    if start == 0 {
      assert s[0..] == s;
    } else {
      forall i | 0 <= i < start - 1 ensures !SofAt(s[1..], i) {
        assert !SofAt(s, i + 1);
      }
      assert !SofAt(s, 0);
      ScanNoise(max, s[1..], start - 1);
      assert s[1..][start - 1..] == s[start..];
    }
  }

  lemma AllNoise(max: nat, s: seq<Byte>)
    requires forall i :: 0 <= i < |s| ==> !SofAt(s, i)
    ensures Scan(max, s) == ScanResult([], if |s| > 1 then s[|s| - 1..] else s)
  {
    ScanNoise(max, s, if |s| > 1 then |s| - 1 else 0);
  }
}
