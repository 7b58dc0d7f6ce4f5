/**
 * What the stream parser guarantees over whole runs: it does not depend on how the bytes are cut,
 * it accepts exactly what `PackMessage` produces, and it undoes `PackMessage` through noise.
 */
module FrameStream {
  import opened Wrappers
  import opened FrameCheck
  import opened FrameParser

  // ----- packing -----

  function Header(m: Message): (h: seq<Byte>)
    requires |m.payload| < 0x1_0000
    ensures |h| == HEADER_SIZE
  {
    var n := |m.payload|;
    [SOF0, SOF1, m.msgType, VERSION, Digit(n % 256), Digit(n / 256), LowByte(m.frameSeq), HighByte(m.frameSeq)]
  }

  /** The byte of value n. */
  function Digit(n: nat): Byte
    requires n < 256
  {
    if n == 0 then 0 else Digit(n - 1) + 1
  }

  function WithCrc(body: seq<Byte>): seq<Byte> {
    body + [LowByte(Crc(body)), HighByte(Crc(body))]
  }

  function Encode(m: Message): (e: seq<Byte>)
    requires |m.payload| < 0x1_0000
    ensures |e| == HEADER_SIZE + |m.payload| + CRC_SIZE
  {
    WithCrc(Header(m) + m.payload)
  }

  function PackMessage(msgType: Byte, payload: seq<Byte>, frameSeq: bv16): Result<seq<Byte>, ProtocolError> {
    if |payload| > MAX_PAYLOAD_SIZE then Err(PayloadTooLarge(|payload|, MAX_PAYLOAD_SIZE))
    else Ok(Encode(Message(msgType, frameSeq, payload)))
  }

  ghost predicate Encodable(max: nat, m: Message) {
    |m.payload| <= max && |m.payload| < 0x1_0000
  }

  lemma NextByte(b: Byte)
    requires b as nat < 255
    ensures (b + 1) as nat == b as nat + 1
  {
  }

  lemma {:induction false} DigitValue(n: nat)
    requires n < 256
    ensures Value(Digit(n)) == n
  {
    if n == 0 {
    } else {
      DigitValue(n - 1);
      NextByte(Digit(n - 1));
    }
  }

  lemma ValueInjective(a: Byte, b: Byte)
    ensures Value(a) < 256 && (Value(a) == Value(b) ==> a == b)
  {
  }

  lemma ValueDigit(b: Byte)
    ensures Value(b) < 256 && Digit(Value(b)) == b
  {
    hide Value, Digit;
    ValueInjective(b, 0);
    DigitValue(Value(b));
    ValueInjective(Digit(Value(b)), b);
  }

  lemma LengthRoundTrip(n: nat)
    requires n < 0x1_0000
    ensures Length(Digit(n % 256), Digit(n / 256)) == n
  {
    hide Digit, Value;
    DigitValue(n % 256);
    DigitValue(n / 256);
  }

  lemma DigitsOfLength(lo: Byte, hi: Byte)
    ensures var n := Length(lo, hi); n < 0x1_0000 && Digit(n % 256) == lo && Digit(n / 256) == hi
  {
    hide Digit, Value;
    ValueDigit(lo);
    ValueDigit(hi);
    var n := Length(lo, hi);
    assert n % 256 == Value(lo) && n / 256 == Value(hi);
  }

  lemma BytesOfWord(lo: Byte, hi: Byte)
    ensures LowByte(Word(lo, hi)) == lo && HighByte(Word(lo, hi)) == hi
  {
  }

  lemma HeaderFields(m: Message)
    requires |m.payload| < 0x1_0000
    ensures var h := Header(m);
            && h[..4] == [0xA5, 0x5A, m.msgType, 1]
            && Length(h[4], h[5]) == |m.payload| && Word(h[6], h[7]) == m.frameSeq
  {
    hide Word, LowByte, HighByte, Length, Digit;
    LengthRoundTrip(|m.payload|);
    WordParts(m.frameSeq);
  }

  lemma EncodeParts(m: Message)
    requires |m.payload| < 0x1_0000
    ensures var e, n := Encode(m), |m.payload|;
            && |e| == n + 10 && e[..8] == Header(m) && e[8..n + 8] == m.payload
            && Word(e[n + 8], e[n + 9]) == Crc(e[..n + 8])
  {
    hide Header, Crc, Word, LowByte, HighByte;
    var body := Header(m) + m.payload;
    assert Encode(m)[..|body|] == body;
    WordParts(Crc(body));
  }

  /** Where each field of a frame lies: two markers, type, version, length, number, payload and CRC, low bytes first. */
  lemma FrameLayout(m: Message)
    requires |m.payload| < 0x1_0000
    ensures var e, n := Encode(m), |m.payload|;
            && |e| == n + 10 && e[..4] == [0xA5, 0x5A, m.msgType, 1] && e[8..n + 8] == m.payload
            && e[4] as nat + 256 * e[5] as nat == n
            && m.frameSeq == (e[6] as bv16) | ((e[7] as bv16) << 8)
            && Crc(e[..n + 8]) == (e[n + 8] as bv16) | ((e[n + 9] as bv16) << 8)
  {
    hide Encode, Header, Crc;
    HeaderFields(m);
    EncodeParts(m);
    var e, h := Encode(m), Header(m);
    assert e[..8] == h;
    assert e[..4] == h[..4] && e[4] == h[4] && e[5] == h[5] && e[6] == h[6] && e[7] == h[7];
  }

  /** The parser accepts a packed message in front of anything. */
  lemma AcceptsEncoded(max: nat, m: Message, t: seq<Byte>)
    requires Encodable(max, m)
    ensures Classify(max, Encode(m) + t) == Frame(m, |Encode(m)|)
  {
    hide Crc, LowByte, HighByte, Word, Length, Digit, CheckPasses;
    var s, body := Encode(m) + t, Header(m) + m.payload;
    WordParts(m.frameSeq);
    LengthRoundTrip(|m.payload|);
    assert s[..HEADER_SIZE] == Header(m);
    assert PayloadLen(s) == |m.payload|;
    assert s[..|Encode(m)|] == WithCrc(body);
    AppendedCrcPasses(body);
    assert s[HEADER_SIZE..HEADER_SIZE + |m.payload|] == m.payload;
  }

  /** Only a packed message is accepted: the accepted bytes are the packing of the message returned. */
  lemma AcceptsOnlyEncoded(max: nat, s: seq<Byte>)
    requires Classify(max, s).Frame?
    ensures var Frame(m, size) := Classify(max, s); Encodable(max, m) && size == |Encode(m)| && Encode(m) <= s
  {
    hide Crc, LowByte, HighByte, Word, Length, Digit;
    var Frame(m, size) := Classify(max, s);
    DigitsOfLength(s[4], s[5]);
    BytesOfWord(s[6], s[7]);
    assert s[..HEADER_SIZE] == Header(m);
    var body := s[..size][..size - 2];
    assert body == Header(m) + m.payload;
    BytesOfWord(s[size - 2], s[size - 1]);
    assert s[..size] == Encode(m);
  }

  lemma PrefixAccepted(max: nat, m: Message, s: seq<Byte>)
    requires Encodable(max, m)
    ensures Encode(m) <= s ==> Classify(max, s) == Frame(m, |Encode(m)|)
  {
    hide Classify, Encode;
    if Encode(m) <= s {
      var t := s[|Encode(m)|..];
      assert Encode(m) + t == s;
      AcceptsEncoded(max, m, t);
    }
  }

  // ----- chunking -----

  /** A verdict other than "need more" does not depend on what follows. */
  lemma VerdictStable(max: nat, s: seq<Byte>, t: seq<Byte>)
    requires !Classify(max, s).NeedMore?
    ensures Classify(max, s + t) == Classify(max, s)
  {
    hide CheckPasses, Word, Length;
    if |s| >= HEADER_SIZE {
      var size := HEADER_SIZE + PayloadLen(s) + CRC_SIZE;
      if size <= |s| {
        assert (s + t)[..size] == s[..size];
        assert (s + t)[HEADER_SIZE..size - CRC_SIZE] == s[HEADER_SIZE..size - CRC_SIZE];
      }
    }
  }

  function Then(first: ScanResult, second: ScanResult): ScanResult {
    ScanResult(first.messages + second.messages, second.rest)
  }

  /** Scanning s and then the leftover with t behind it is scanning both at once. */
  lemma {:induction false} ScanConcat(max: nat, s: seq<Byte>, t: seq<Byte>)
    ensures Scan(max, s + t) == Then(Scan(max, s), Scan(max, Scan(max, s).rest + t))
    decreases |s|
  {
    hide Classify;
    var v := Classify(max, s);
    match v
    case NeedMore =>
    case Bad =>
      VerdictStable(max, s, t);
      assert (s + t)[1..] == s[1..] + t;
      ScanConcat(max, s[1..], t);
    case Frame(m, size) =>
      VerdictStable(max, s, t);
      assert (s + t)[size..] == s[size..] + t;
      ScanConcat(max, s[size..], t);
  }

  function Flatten(chunks: seq<seq<Byte>>): seq<Byte> {
    if chunks == [] then [] else chunks[0] + Flatten(chunks[1..])
  }

  /** The messages of successive `Feed` calls and the buffer they leave, starting from `buffer`. */
  function Run(max: nat, buffer: seq<Byte>, chunks: seq<seq<Byte>>): ScanResult
    decreases |chunks|
  {
    if chunks == [] then ScanResult([], buffer)
    else
      var first := Scan(max, buffer + chunks[0]);
      Then(first, Run(max, first.rest, chunks[1..]))
  }

  /** From any parser state, feeding chunks gives what one feed of their concatenation gives. */
  lemma {:induction false} ChunkingIrrelevant(max: nat, buffer: seq<Byte>, chunks: seq<seq<Byte>>)
    requires chunks != []
    ensures Run(max, buffer, chunks) == Scan(max, buffer + Flatten(chunks))
    decreases |chunks|
  {
    hide Scan;
    var rest := chunks[1..];
    var first := Scan(max, buffer + chunks[0]);
    ScanConcat(max, buffer + chunks[0], Flatten(rest));
    assert buffer + Flatten(chunks) == buffer + chunks[0] + Flatten(rest);
    if rest == [] {
      assert first.rest + Flatten(rest) == first.rest;
      Settled(max, buffer + chunks[0]);
    } else {
      ChunkingIrrelevant(max, first.rest, rest);
    }
  }

  /** What a scan leaves is undecided, shorter than the largest frame, and yields nothing by itself. */
  lemma {:induction false} Settled(max: nat, s: seq<Byte>)
    ensures var rest := Scan(max, s).rest;
            && Classify(max, rest).NeedMore?
            && Scan(max, rest) == ScanResult([], rest)
            && |rest| < HEADER_SIZE + max + CRC_SIZE
    decreases |s|
  {
    var v := Classify(max, s);
    match v
    case NeedMore =>
    case Bad => Settled(max, s[1..]);
    case Frame(m, size) => Settled(max, s[size..]);
  }

  // ----- the leftmost greedy parse, stated by positions -----

  datatype Placed = Placed(start: nat, message: Message)

  function End(f: Placed): nat
    requires |f.message.payload| < 0x1_0000
  {
    f.start + |Encode(f.message)|
  }

  /** No frame can start at position i, whatever bytes are appended to the stream. */
  ghost predicate Dead(max: nat, s: seq<Byte>, i: nat)
    requires i <= |s|
  {
    forall t, m :: Encodable(max, m) ==> !(Encode(m) <= s[i..] + t)
  }

  ghost predicate DeadBetween(max: nat, s: seq<Byte>, from: nat, to: nat) {
    from <= to <= |s| && forall i :: from <= i < to ==> Dead(max, s, i)
  }

  /**
   * `frames` are packed messages standing in s at disjoint places, in order, from `from` on. Every
   * position skipped before a frame, or after the last one up to `stop`, is dead.
   */
  ghost predicate GreedyParse(max: nat, s: seq<Byte>, from: nat, frames: seq<Placed>, stop: nat)
    decreases |frames|
  {
    if frames == [] then DeadBetween(max, s, from, stop)
    else
      var f := frames[0];
      && Encodable(max, f.message)
      && DeadBetween(max, s, from, f.start)
      && Encode(f.message) <= s[f.start..]
      && GreedyParse(max, s, End(f), frames[1..], stop)
  }

  function Messages(frames: seq<Placed>): (ms: seq<Message>)
    ensures |ms| == |frames| && forall i :: 0 <= i < |ms| ==> ms[i] == frames[i].message
  {
    seq(|frames|, i requires 0 <= i < |frames| => frames[i].message)
  }

  lemma BadIsDead(max: nat, s: seq<Byte>, i: nat)
    requires i <= |s| && Classify(max, s[i..]).Bad?
    ensures Dead(max, s, i)
  {
    hide Classify, Encode;
    forall t, m | Encodable(max, m) ensures !(Encode(m) <= s[i..] + t) {
      VerdictStable(max, s[i..], t);
      PrefixAccepted(max, m, s[i..] + t);
    }
  }

  lemma ParsePrepend(max: nat, s: seq<Byte>, from: nat, m: Message, tail: seq<Placed>, stop: nat)
    requires from <= |s| && Encodable(max, m) && Encode(m) <= s[from..]
    requires GreedyParse(max, s, from + |Encode(m)|, tail, stop)
    ensures GreedyParse(max, s, from, [Placed(from, m)] + tail, stop)
    ensures Messages([Placed(from, m)] + tail) == [m] + Messages(tail)
  {
  }

  lemma ParseSkip(max: nat, s: seq<Byte>, from: nat, frames: seq<Placed>, stop: nat)
    requires from < |s| && Dead(max, s, from) && GreedyParse(max, s, from + 1, frames, stop)
    ensures GreedyParse(max, s, from, frames, stop)
  {
  }

  /** The parser's output is a greedy parse of the whole stream, and the leftover starts at its end. */
  lemma {:induction false} ScanIsGreedy(max: nat, s: seq<Byte>, from: nat) returns (frames: seq<Placed>, stop: nat)
    requires from <= |s|
    ensures GreedyParse(max, s, from, frames, stop)
    ensures from <= stop <= |s| && Scan(max, s[from..]) == ScanResult(Messages(frames), s[stop..])
    decreases |s| - from
  {
    hide Classify, Encode, Dead;
    match Classify(max, s[from..])
    case NeedMore =>
      frames, stop := [], from;
    case Bad =>
      hide GreedyParse;
      BadIsDead(max, s, from);
      assert s[from..][1..] == s[from + 1..];
      frames, stop := ScanIsGreedy(max, s, from + 1);
      ParseSkip(max, s, from, frames, stop);
    case Frame(m, size) =>
      hide GreedyParse;
      AcceptsOnlyEncoded(max, s[from..]);
      assert s[from..][size..] == s[from + size..];
      var tail;
      tail, stop := ScanIsGreedy(max, s, from + size);
      ParsePrepend(max, s, from, m, tail, stop);
      frames := [Placed(from, m)] + tail;
  }

  /** Between `from` and the end of the stream there is nothing dead to skip before a live position. */
  lemma LiveIsFrame(max: nat, s: seq<Byte>, i: nat, m: Message)
    requires i <= |s| && Encodable(max, m) && Encode(m) <= s[i..]
    ensures Classify(max, s[i..]) == Frame(m, |Encode(m)|)
    ensures !Dead(max, s, i)
  {
    hide Classify, Encode;
    PrefixAccepted(max, m, s[i..]);
    assert Encode(m) <= s[i..] + [];
  }

  /** There is only one greedy parse that reaches the same end, so the scan finds the parse. */
  lemma {:induction false} GreedyUnique(max: nat, s: seq<Byte>, from: nat,
                                        frames: seq<Placed>, frames': seq<Placed>, stop: nat)
    requires from <= |s|
    requires GreedyParse(max, s, from, frames, stop) && GreedyParse(max, s, from, frames', stop)
    ensures frames == frames'
    decreases |frames|
  {
    hide Classify, Encode;
    if frames == [] {
      if frames' != [] {
        GreedyEnds(max, s, frames', from, stop);
        var f := frames'[0];
        LiveIsFrame(max, s, f.start, f.message);
      }
    } else if frames' == [] {
      GreedyEnds(max, s, frames, from, stop);
      LiveIsFrame(max, s, frames[0].start, frames[0].message);
    } else {
      var f, f' := frames[0], frames'[0];
      LiveIsFrame(max, s, f.start, f.message);
      LiveIsFrame(max, s, f'.start, f'.message);
      assert f.start == f'.start;
      GreedyUnique(max, s, End(f), frames[1..], frames'[1..], stop);
    }
  }

  lemma {:induction false} GreedyEnds(max: nat, s: seq<Byte>, frames: seq<Placed>, from: nat, stop: nat)
    requires from <= |s| && GreedyParse(max, s, from, frames, stop)
    ensures from <= stop <= |s|
    ensures frames != [] ==> frames[0].start < stop
    decreases |frames|
  {
    hide Encode;
    if frames == [] {
    } else {
      GreedyEnds(max, s, frames[1..], End(frames[0]), stop);
    }
  }

  /** Whole runs of a fresh parser: the messages are those of a greedy parse of everything received. */
  lemma RunIsGreedy(max: nat, chunks: seq<seq<Byte>>) returns (frames: seq<Placed>, stop: nat)
    requires chunks != []
    ensures var s := Flatten(chunks);
            && GreedyParse(max, s, 0, frames, stop) && stop <= |s|
            && Run(max, [], chunks) == ScanResult(Messages(frames), s[stop..])
            && |s| - stop < HEADER_SIZE + max + CRC_SIZE
  {
    var s := Flatten(chunks);
    ChunkingIrrelevant(max, [], chunks);
    assert [] + s == s && s[0..] == s;
    frames, stop := ScanIsGreedy(max, s, 0);
    Settled(max, s);
  }

  // ----- corruption -----

  /**
   * A packed message with any change confined to two adjacent bytes or to sixteen consecutive bits,
   * or with an odd number of bits flipped, is never accepted as a frame of the same size, whatever
   * follows it.
   */
  lemma CorruptedFrameRejected(max: nat, m: Message, w: seq<Byte>, k: nat, t: seq<Byte>)
    requires |m.payload| < 0x1_0000 && w != Encode(m) && |w| == |Encode(m)|
    requires
      || DifferOnlyAt(Encode(m), w, k)
      || (exists e :: |e| == |w| && (OddBits(e) || Burst(e, k)) && w == Flip(Encode(m), e))
    ensures var v := Classify(max, w + t); v.Frame? ==> v.size != |w|
  {
    hide OddBits, Burst, Classify;
    EncodedPasses(m);
    var v := Classify(max, w + t);
    if v.Frame? && v.size == |w| {
      AcceptsOnlyEncoded(max, w + t);
      EncodedPasses(v.message);
      assert w == Encode(v.message) by { assert (w + t)[..|w|] == w; }
      if DifferOnlyAt(Encode(m), w, k) {
        AdjacentBytesDetected(Encode(m), w, k);
      } else {
        var e :| |e| == |w| && (OddBits(e) || Burst(e, k)) && w == Flip(Encode(m), e);
        if OddBits(e) {
          OddErrorsDetected(Encode(m), e);
        } else {
          BurstsDetected(Encode(m), e, k);
        }
      }
    }
  }

  lemma EncodedPasses(m: Message)
    requires |m.payload| < 0x1_0000
    ensures CheckPasses(Encode(m))
  {
  }

  // ----- round trip through noise -----

  ghost predicate Quiet(noise: seq<Byte>) {
    forall i :: 0 <= i < |noise| ==> !SofAt(noise, i)
  }

  /** `packets` are what `PackMessage` made of the messages, none larger than the receiver takes. */
  ghost predicate Sendable(max: nat, noises: seq<seq<Byte>>, messages: seq<Message>, packets: seq<seq<Byte>>) {
    && |noises| == |messages| == |packets|
    && forall i :: 0 <= i < |messages| ==>
         var m := messages[i];
         && Quiet(noises[i]) && |m.payload| <= max
         && PackMessage(m.msgType, m.payload, m.frameSeq) == Ok(packets[i])
  }

  /** Each packet behind its noise, and more noise behind the last. */
  function Stream(noises: seq<seq<Byte>>, packets: seq<seq<Byte>>, tail: seq<Byte>): seq<Byte>
    requires |noises| == |packets|
  {
    if packets == [] then tail else noises[0] + packets[0] + Stream(noises[1..], packets[1..], tail)
  }

  /** A marker cannot straddle the end of the noise: a frame does not start with its second byte. */
  lemma QuietBeforeFrame(noise: seq<Byte>, frame: seq<Byte>)
    requires Quiet(noise) && |frame| > 0 && frame[0] == SOF0
    ensures forall i :: 0 <= i < |noise| ==> !SofAt(noise + frame, i)
  {
    forall i | 0 <= i < |noise| ensures !SofAt(noise + frame, i) {
      assert !SofAt(noise, i);
    }
  }

  lemma NoiseThenFrame(max: nat, noise: seq<Byte>, m: Message, t: seq<Byte>)
    requires Quiet(noise) && Encodable(max, m)
    ensures Scan(max, noise + Encode(m) + t) == Then(ScanResult([m], []), Scan(max, t))
  {
    var e := Encode(m);
    var s := noise + e + t;
    assert s == noise + (e + t);
    QuietBeforeFrame(noise, e + t);
    hide Classify, SofAt, Encode;
    ScanNoise(max, s, |noise|);
    assert s[|noise|..] == e + t;
    AcceptsEncoded(max, m, t);
    assert (e + t)[|e|..] == t;
  }

  /**
   * Packed messages with marker-free noise between them, cut into any chunks and fed to a fresh
   * parser, come out as exactly those messages; of the trailing noise at most one byte is kept.
   */
  lemma RoundTrip(max: nat, noises: seq<seq<Byte>>, messages: seq<Message>, packets: seq<seq<Byte>>,
                  tail: seq<Byte>, chunks: seq<seq<Byte>>)
    requires Sendable(max, noises, messages, packets) && Quiet(tail)
    requires chunks != [] && Flatten(chunks) == Stream(noises, packets, tail)
    ensures Run(max, [], chunks) == ScanResult(messages, if |tail| > 1 then tail[|tail| - 1..] else tail)
  {
    hide *;
    ChunkingIrrelevant(max, [], chunks);
    assert [] + Flatten(chunks) == Flatten(chunks);
    StreamScan(max, noises, messages, packets, tail);
  }

  lemma {:induction false} StreamScan(max: nat, noises: seq<seq<Byte>>, messages: seq<Message>,
                                      packets: seq<seq<Byte>>, tail: seq<Byte>)
    requires Sendable(max, noises, messages, packets) && Quiet(tail)
    ensures Scan(max, Stream(noises, packets, tail)) ==
            ScanResult(messages, if |tail| > 1 then tail[|tail| - 1..] else tail)
    decreases |messages|
  {
    hide Scan, Encode;
    if messages == [] {
      AllNoise(max, tail);
    } else {
      StreamScan(max, noises[1..], messages[1..], packets[1..], tail);
      NoiseThenFrame(max, noises[0], messages[0], Stream(noises[1..], packets[1..], tail));
      assert messages == [messages[0]] + messages[1..];
    }
  }
}
