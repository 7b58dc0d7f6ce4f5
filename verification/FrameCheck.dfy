/**
 * The frame check: a reflected CRC with polynomial 0x8408 and start value 0xFFFF, sent low byte
 * first and not complemented, so that a message followed by its own CRC leaves the register at 0.
 *
 * The bit-vector operations are named, and proofs that do not need their definitions hide them.
 */
module FrameCheck {
  type Byte = bv8

  const START: bv16 := 0xFFFF
  const POLYNOMIAL: bv16 := 0x8408

  predicate Low(r: bv16) { r & 1 != 0 }

  function Half(r: bv16): bv16 { r >> 1 }

  function Xor(r: bv16, s: bv16): bv16 { r ^ s }

  function Wide(b: Byte): bv16 { b as bv16 }

  function LowByte(w: bv16): Byte { (w & 0xFF) as Byte }

  function HighByte(w: bv16): Byte { (w >> 8) as Byte }

  /** Little-endian pair of bytes. */
  function Word(lo: Byte, hi: Byte): bv16 { (lo as bv16) | ((hi as bv16) << 8) }

  function BitStep(r: bv16): bv16 {
    if Low(r) then Xor(Half(r), POLYNOMIAL) else Half(r)
  }

  function BitSteps(r: bv16, n: nat): bv16 {
    if n == 0 then r else BitStep(BitSteps(r, n - 1))
  }

  function ByteStep(r: bv16, b: Byte): bv16 {
    BitSteps(Xor(r, Wide(b)), 8)
  }

  /** The register after data, starting from r. */
  function Register(r: bv16, data: seq<Byte>): bv16 {
    if data == [] then r else ByteStep(Register(r, data[..|data| - 1]), data[|data| - 1])
  }

  function Crc(data: seq<Byte>): bv16 {
    Register(START, data)
  }

  method Crc16(data: seq<Byte>) returns (crc: bv16)
    ensures crc == Crc(data)
  {
    crc := START;
    for i := 0 to |data|
      invariant crc == Crc(data[..i])
    {
      assert data[..i + 1][..i] == data[..i];
      crc := Xor(crc, Wide(data[i]));
      ghost var r := crc;
      for bit := 0 to 8
        invariant crc == BitSteps(r, bit)
      {
        crc := if Low(crc) then Xor(Half(crc), POLYNOMIAL) else Half(crc);
      }
    }
    assert data[..|data|] == data;
  }

  /** The receiver's test: the last two bytes are the CRC of everything before them. */
  predicate CheckPasses(w: seq<Byte>)
    requires |w| >= 2
  {
    Crc(w[..|w| - 2]) == Word(w[|w| - 2], w[|w| - 1])
  }

  // ----- bit-vector facts -----

  lemma WordParts(w: bv16)
    ensures Word(LowByte(w), HighByte(w)) == w
  {
  }

  lemma WordIsXor(lo: Byte, hi: Byte)
    ensures Xor(Wide(lo), Word(0, hi)) == Word(lo, hi)
  {
  }

  lemma XorTwice(r: bv16, s: bv16)
    ensures Xor(Xor(r, s), s) == r
  {
  }

  lemma XorAssociative(r: bv16, s: bv16, t: bv16)
    ensures Xor(Xor(r, s), t) == Xor(r, Xor(s, t))
  {
  }

  lemma XorCommutes(r: bv16, s: bv16)
    ensures Xor(r, s) == Xor(s, r)
  {
  }

  lemma XorSelf(s: bv16)
    ensures Xor(s, s) == 0 && Xor(0, s) == s
  {
  }

  lemma XorZero(r: bv16, s: bv16)
    ensures Xor(r, s) == 0 <==> r == s
  {
    hide Xor;
    XorTwice(r, s);
    XorSelf(s);
  }

  lemma XorBits(r: bv16, s: bv16)
    ensures Half(Xor(r, s)) == Xor(Half(r), Half(s))
    ensures Low(Xor(r, s)) == (Low(r) != Low(s))
  {
  }

  lemma BitStepInjective(r: bv16, s: bv16)
    ensures BitStep(r) == BitStep(s) ==> r == s
  {
  }

  lemma XorSwap(r: bv16, s: bv16, c: bv16)
    ensures Xor(Xor(r, c), s) == Xor(Xor(r, s), c)
    ensures Xor(r, Xor(s, c)) == Xor(Xor(r, s), c)
    ensures Xor(Xor(r, c), Xor(s, c)) == Xor(r, s)
  {
  }

  lemma BitStepLinear(r: bv16, s: bv16)
    ensures BitStep(Xor(r, s)) == Xor(BitStep(r), BitStep(s))
  {
    hide Low, Half, Xor;
    XorBits(r, s);
    XorSwap(Half(r), Half(s), POLYNOMIAL);
  }

  function Halves(r: bv16, n: nat): bv16 {
    if n == 0 then r else Half(Halves(r, n - 1))
  }

  lemma EmptyLowByte(b: Byte)
    ensures forall n :: 0 <= n < 8 ==> !Low(Halves(Word(0, b), n))
    ensures Halves(Word(0, b), 8) == Wide(b)
  {
    var r := Word(0, b);
    assert Halves(r, 1) == r >> 1;
    assert Halves(r, 2) == r >> 2;
    assert Halves(r, 3) == r >> 3;
    assert Halves(r, 4) == r >> 4;
    assert Halves(r, 5) == r >> 5;
    assert Halves(r, 6) == r >> 6;
    assert Halves(r, 7) == r >> 7;
  }

  lemma {:induction false} StepsAreHalves(r: bv16, n: nat)
    requires forall k :: 0 <= k < n ==> !Low(Halves(r, k))
    ensures BitSteps(r, n) == Halves(r, n)
  {
    hide Low, Half, Xor;
    if n == 0 {
    } else {
      StepsAreHalves(r, n - 1);
    }
  }

  /** Eight steps take a word with an empty low byte to its high byte. */
  lemma EightSteps(b: Byte)
    ensures BitSteps(Word(0, b), 8) == Wide(b)
  {
    EmptyLowByte(b);
    StepsAreHalves(Word(0, b), 8);
  }

  // ----- the step as a linear injective map -----

  lemma {:induction false} BitStepsInjective(r: bv16, s: bv16, n: nat)
    ensures BitSteps(r, n) == BitSteps(s, n) ==> r == s
  {
    hide BitStep;
    if n == 0 {
    } else {
      BitStepInjective(BitSteps(r, n - 1), BitSteps(s, n - 1));
      BitStepsInjective(r, s, n - 1);
    }
  }

  lemma {:induction false} BitStepsLinear(r: bv16, s: bv16, n: nat)
    ensures BitSteps(Xor(r, s), n) == Xor(BitSteps(r, n), BitSteps(s, n))
  {
    hide BitStep, Xor;
    if n == 0 {
    } else {
      BitStepsLinear(r, s, n - 1);
      BitStepLinear(BitSteps(r, n - 1), BitSteps(s, n - 1));
    }
  }

  /** Feeding two bytes is sixteen steps from the register with both bytes already mixed in. */
  lemma TwoBytes(r: bv16, lo: Byte, hi: Byte)
    ensures ByteStep(ByteStep(r, lo), hi) == BitSteps(BitSteps(Xor(r, Word(lo, hi)), 8), 8)
  {
    hide BitSteps, Xor, Word, Wide;
    EightSteps(hi);
    BitStepsLinear(Xor(r, Wide(lo)), Word(0, hi), 8);
    XorAssociative(r, Wide(lo), Word(0, hi));
    WordIsXor(lo, hi);
  }

  lemma {:induction false} RegisterConcat(r: bv16, a: seq<Byte>, b: seq<Byte>)
    ensures Register(r, a + b) == Register(Register(r, a), b)
  {
    if b == [] {
      assert a + b == a;
    } else {
      var c := b[..|b| - 1];
      assert (a + b)[..|a + b| - 1] == a + c;
      RegisterConcat(r, a, c);
    }
  }

  lemma {:induction false} RegisterInjective(r: bv16, s: bv16, data: seq<Byte>)
    ensures Register(r, data) == Register(s, data) ==> r == s
  {
    hide BitSteps, Xor, Wide;
    if data == [] {
    } else {
      var init, b := data[..|data| - 1], Wide(data[|data| - 1]);
      var r', s' := Register(r, init), Register(s, init);
      BitStepsInjective(Xor(r', b), Xor(s', b), 8);
      XorTwice(r', b);
      XorTwice(s', b);
      RegisterInjective(r, s, init);
    }
  }

  lemma RegisterPair(r: bv16, lo: Byte, hi: Byte)
    ensures Register(r, [lo, hi]) == BitSteps(BitSteps(Xor(r, Word(lo, hi)), 8), 8)
  {
    hide BitSteps, Xor, Word, Wide;
    assert Register(r, [lo]) == ByteStep(r, lo) by { assert [lo][..0] == []; }
    assert [lo, hi][..1] == [lo];
    TwoBytes(r, lo, hi);
  }

  lemma ZeroSteps()
    ensures BitSteps(BitSteps(0, 8), 8) == 0
  {
  }

  lemma SixteenStepsInjective(r: bv16, s: bv16)
    ensures BitSteps(BitSteps(r, 8), 8) == BitSteps(BitSteps(s, 8), 8) ==> r == s
  {
    hide BitSteps;
    BitStepsInjective(r, s, 8);
    BitStepsInjective(BitSteps(r, 8), BitSteps(s, 8), 8);
  }

  /** The receiver's comparison is the same as asking for a zero register over the whole frame. */
  lemma CheckIsZeroResidue(w: seq<Byte>)
    requires |w| >= 2
    ensures CheckPasses(w) <==> Crc(w) == 0
  {
    hide BitSteps, Xor, Word;
    var m, lo, hi := w[..|w| - 2], w[|w| - 2], w[|w| - 1];
    assert w == m + [lo, hi];
    RegisterConcat(START, m, [lo, hi]);
    RegisterPair(Crc(m), lo, hi);
    ZeroSteps();
    SixteenStepsInjective(Xor(Crc(m), Word(lo, hi)), 0);
    XorZero(Crc(m), Word(lo, hi));
  }

  /** Appending the CRC of a message, low byte first, always passes and leaves residue 0. */
  lemma AppendedCrcPasses(m: seq<Byte>)
    ensures var w := m + [LowByte(Crc(m)), HighByte(Crc(m))];
            CheckPasses(w) && Crc(w) == 0
  {
    var w := m + [LowByte(Crc(m)), HighByte(Crc(m))];
    assert w[..|w| - 2] == m;
    WordParts(Crc(m));
    CheckIsZeroResidue(w);
  }

  // ----- error detection -----

  ghost predicate DifferOnlyAt(w: seq<Byte>, w': seq<Byte>, k: nat) {
    && |w| == |w'| && k + 1 < |w|
    && forall i :: 0 <= i < |w| && i != k && i != k + 1 ==> w[i] == w'[i]
  }

  lemma WordInjective(lo: Byte, hi: Byte, lo': Byte, hi': Byte)
    ensures Word(lo, hi) == Word(lo', hi') ==> lo == lo' && hi == hi'
  {
  }

  /** No change confined to two adjacent bytes turns a passing frame into another passing frame. */
  lemma AdjacentBytesDetected(w: seq<Byte>, w': seq<Byte>, k: nat)
    requires DifferOnlyAt(w, w', k) && CheckPasses(w) && CheckPasses(w')
    ensures w == w'
  {
    hide BitSteps, Xor, Word;
    CheckIsZeroResidue(w);
    CheckIsZeroResidue(w');
    var a, c := w[..k], w[k + 2..];
    var p, p' := [w[k], w[k + 1]], [w'[k], w'[k + 1]];
    assert w == a + p + c && w' == a + p' + c;
    RegisterConcat(START, a + p, c);
    RegisterConcat(START, a + p', c);
    RegisterConcat(START, a, p);
    RegisterConcat(START, a, p');
    RegisterInjective(Register(START, a + p), Register(START, a + p'), c);
    var r := Register(START, a);
    RegisterPair(r, p[0], p[1]);
    RegisterPair(r, p'[0], p'[1]);
    var x, x' := Word(p[0], p[1]), Word(p'[0], p'[1]);
    SixteenStepsInjective(Xor(r, x), Xor(r, x'));
    XorTwice(x, r);
    XorTwice(x', r);
    XorCommutes(r, x);
    XorCommutes(r, x');
    WordInjective(p[0], p[1], p'[0], p'[1]);
  }

  /** Whether an odd number of the n lowest bits of r is set. */
  predicate Odd(r: bv16, n: nat) {
    if n == 0 then false else Low(r) != Odd(Half(r), n - 1)
  }

  /** Whether an odd number of all bits of data is set. */
  predicate OddBits(data: seq<Byte>) {
    if data == [] then false else OddBits(data[..|data| - 1]) != Odd(Wide(data[|data| - 1]), 16)
  }

  lemma {:induction false} OddXor(r: bv16, s: bv16, n: nat)
    ensures Odd(Xor(r, s), n) == (Odd(r, n) != Odd(s, n))
    decreases n
  {
    hide Low, Half, Xor;
    if n == 0 {
    } else {
      XorBits(r, s);
      OddXor(Half(r), Half(s), n - 1);
    }
  }

  ghost predicate Fits(r: bv16, n: nat) {
    if n == 0 then r == 0 else Fits(Half(r), n - 1)
  }

  lemma {:induction false} OddFits(r: bv16, n: nat)
    requires Fits(r, n)
    ensures Odd(r, n + 1) == Odd(r, n)
    decreases n
  {
    if n == 0 {
    } else {
      OddFits(Half(r), n - 1);
    }
  }

  lemma HalfFits(r: bv16)
    ensures Fits(Half(r), 15)
  {
    assert Fits(r >> 15, 1);
    assert Fits(r >> 14, 2);
    assert Fits(r >> 13, 3);
    assert Fits(r >> 12, 4);
    assert Fits(r >> 11, 5);
    assert Fits(r >> 10, 6);
    assert Fits(r >> 9, 7);
    assert Fits(r >> 8, 8);
    assert Fits(r >> 7, 9);
    assert Fits(r >> 6, 10);
    assert Fits(r >> 5, 11);
    assert Fits(r >> 4, 12);
    assert Fits(r >> 3, 13);
    assert Fits(r >> 2, 14);
  }

  lemma PolynomialOdd()
    ensures Odd(POLYNOMIAL, 16) && !Odd(START, 16)
  {
    assert Odd(1, 1);
    assert !Odd(0x21, 6);
    assert Odd(0x1081, 13);
    assert !Odd(0xF, 4) && !Odd(0xFF, 8) && !Odd(0xFFF, 12);
  }

  /** The polynomial has an odd number of feedback bits, so a step keeps the register's parity. */
  lemma BitStepParity(r: bv16)
    ensures Odd(BitStep(r), 16) == Odd(r, 16)
  {
    HalfFits(r);
    OddFits(Half(r), 15);
    hide Low, Half, Xor;
    OddXor(Half(r), POLYNOMIAL, 16);
    PolynomialOdd();
  }

  lemma {:induction false} BitStepsParity(r: bv16, n: nat)
    ensures Odd(BitSteps(r, n), 16) == Odd(r, 16)
  {
    hide BitStep, Odd;
    if n == 0 {
    } else {
      BitStepsParity(r, n - 1);
      BitStepParity(BitSteps(r, n - 1));
    }
  }

  lemma {:induction false} CrcParity(data: seq<Byte>)
    ensures Odd(Crc(data), 16) == OddBits(data)
  {
    hide BitSteps, Odd, Xor, Wide;
    PolynomialOdd();
    if data == [] {
    } else {
      var init, b := data[..|data| - 1], Wide(data[|data| - 1]);
      CrcParity(init);
      OddXor(Crc(init), b, 16);
      BitStepsParity(Xor(Crc(init), b), 8);
    }
  }

  /** w with the bits of the error pattern e flipped. */
  function Flip(w: seq<Byte>, e: seq<Byte>): (f: seq<Byte>)
    requires |w| == |e|
    ensures |f| == |w| && forall i :: 0 <= i < |w| ==> f[i] == FlipByte(w[i], e[i])
  {
    seq(|w|, i requires 0 <= i < |w| => FlipByte(w[i], e[i]))
  }

  function FlipByte(a: Byte, b: Byte): Byte { a ^ b }

  lemma WideXor(a: Byte, b: Byte)
    ensures Wide(FlipByte(a, b)) == Xor(Wide(a), Wide(b))
  {
  }

  lemma {:induction false} FlipParity(w: seq<Byte>, e: seq<Byte>)
    requires |w| == |e|
    ensures OddBits(Flip(w, e)) == (OddBits(w) != OddBits(e))
  {
    hide Xor, Wide, Odd, FlipByte;
    if w == [] {
    } else {
      var n := |w| - 1;
      assert Flip(w, e)[..n] == Flip(w[..n], e[..n]);
      FlipParity(w[..n], e[..n]);
      WideXor(w[n], e[n]);
      OddXor(Wide(w[n]), Wide(e[n]), 16);
    }
  }

  lemma {:induction false} OddZero(n: nat)
    ensures !Odd(0, n)
  {
    if n == 0 {
    } else {
      assert Half(0) == 0 && !Low(0);
      OddZero(n - 1);
    }
  }

  /** Flipping an odd number of bits of a passing frame always breaks the check. */
  lemma OddErrorsDetected(w: seq<Byte>, e: seq<Byte>)
    requires |w| == |e| && |w| >= 2
    requires CheckPasses(w) && OddBits(e)
    ensures !CheckPasses(Flip(w, e))
  {
    hide Odd;
    CheckIsZeroResidue(w);
    CheckIsZeroResidue(Flip(w, e));
    CrcParity(w);
    CrcParity(Flip(w, e));
    FlipParity(w, e);
    OddZero(16);
  }

  // ----- bursts: the register fed bit by bit, the lowest bit of a byte first -----

  function Bit(b: bool): bv16 { if b then 1 else 0 }

  function Double(r: bv16): bv16 { r << 1 }

  /** The n lowest bits of r, from the lowest up. */
  function Bits(r: bv16, n: nat): (b: seq<bool>)
    ensures |b| == n
  {
    if n == 0 then [] else [Low(r)] + Bits(Half(r), n - 1)
  }

  /** All bits of data in the order the check takes them. */
  function DataBits(data: seq<Byte>): (b: seq<bool>)
    ensures |b| == 8 * |data|
  {
    if data == [] then [] else DataBits(data[..|data| - 1]) + Bits(Wide(data[|data| - 1]), 8)
  }

  function BitRegister(r: bv16, bits: seq<bool>): bv16
    decreases |bits|
  {
    if bits == [] then r else BitRegister(BitStep(Xor(r, Bit(bits[0]))), bits[1..])
  }

  /** The word whose lowest bits these are. */
  function Pack(bits: seq<bool>): bv16 {
    if bits == [] then 0 else Xor(Bit(bits[0]), Double(Pack(bits[1..])))
  }

  lemma DoubleParts(r: bv16)
    ensures !Low(Double(r)) && Xor(Double(r), 0) == Double(r)
  {
  }

  lemma OneParts(r: bv16)
    ensures Low(Xor(1, Double(r))) && Half(Xor(1, Double(r))) == Half(Double(r))
  {
  }

  lemma Rebuilt(r: bv16)
    ensures (if Low(r) then Xor(1, Double(Half(r))) else Double(Half(r))) == r
  {
  }

  lemma PackParts(b: bool, r: bv16)
    ensures Low(Xor(Bit(b), Double(r))) == b && !Low(Double(r))
    ensures Half(Xor(Bit(b), Double(r))) == Half(Double(r))
    ensures Xor(Bit(Low(r)), Double(Half(r))) == r
  {
    hide Low, Half, Xor, Double;
    DoubleParts(r);
    OneParts(r);
    Rebuilt(r);
    XorZeroRight(Double(r));
    XorZeroRight(Double(Half(r)));
  }

  lemma {:induction false} FitsMore(r: bv16, n: nat, m: nat)
    requires Fits(r, n) && n <= m
    ensures Fits(r, m)
    decreases m
  {
    if m == 0 {
    } else if n == 0 {
      assert Half(0) == 0;
      FitsMore(Half(r), 0, m - 1);
    } else {
      FitsMore(Half(r), n - 1, m - 1);
    }
  }

  lemma {:induction false} HalvesFirst(r: bv16, n: nat)
    ensures Halves(Half(r), n) == Halves(r, n + 1)
  {
    hide Half;
    if n > 0 {
      HalvesFirst(r, n - 1);
    }
  }

  lemma {:induction false} FitsHalves(r: bv16, n: nat)
    ensures Fits(r, n) <==> Halves(r, n) == 0
    decreases n
  {
    hide Half;
    if n > 0 {
      FitsHalves(Half(r), n - 1);
      HalvesFirst(r, n - 1);
    }
  }

  lemma FifteenHalves(r: bv16)
    ensures Halves(r, 15) == r >> 15
  {
    assert Halves(r, 1) == r >> 1;
    assert Halves(r, 2) == r >> 2;
    assert Halves(r, 3) == r >> 3;
    assert Halves(r, 4) == r >> 4;
    assert Halves(r, 5) == r >> 5;
    assert Halves(r, 6) == r >> 6;
    assert Halves(r, 7) == r >> 7;
    assert Halves(r, 8) == r >> 8;
    assert Halves(r, 9) == r >> 9;
    assert Halves(r, 10) == r >> 10;
    assert Halves(r, 11) == r >> 11;
    assert Halves(r, 12) == r >> 12;
    assert Halves(r, 13) == r >> 13;
    assert Halves(r, 14) == r >> 14;
  }

  lemma FitsDoubles(r: bv16)
    requires Fits(r, 15)
    ensures Half(Double(r)) == r
  {
    FitsHalves(r, 15);
    FifteenHalves(r);
    hide Fits, Halves;
    TopClear(r);
  }

  lemma TopClear(r: bv16)
    requires r >> 15 == 0
    ensures Half(Double(r)) == r
  {
  }

  lemma {:induction false} PackFits(bits: seq<bool>)
    requires |bits| <= 16
    ensures Fits(Pack(bits), |bits|)
    ensures bits != [] ==> Half(Pack(bits)) == Pack(bits[1..]) && Half(Double(Pack(bits[1..]))) == Pack(bits[1..])
  {
    hide Low, Half, Xor, Double, Bit;
    if bits != [] {
      var p := Pack(bits[1..]);
      PackFits(bits[1..]);
      FitsMore(p, |bits| - 1, 15);
      FitsDoubles(p);
      PackParts(bits[0], p);
    }
  }

  lemma {:induction false} PackZero(bits: seq<bool>)
    requires |bits| <= 16 && Pack(bits) == 0
    ensures forall i :: 0 <= i < |bits| ==> !bits[i]
  {
    if bits != [] {
      PackFits(bits);
      PackParts(bits[0], Pack(bits[1..]));
      assert !Low(0) && Half(0) == 0;
      hide Pack, Low, Half, Xor, Double, Bit;
      PackZero(bits[1..]);
      assert forall i :: 0 < i < |bits| ==> bits[i] == bits[1..][i - 1];
    }
  }

  lemma {:induction false} PackBits(r: bv16, n: nat)
    requires Fits(r, n)
    ensures Pack(Bits(r, n)) == r
    decreases n
  {
    hide Low, Half, Xor, Double, Bit;
    if n > 0 {
      PackBits(Half(r), n - 1);
      PackParts(true, r);
      assert Bits(r, n)[1..] == Bits(Half(r), n - 1);
    }
  }

  lemma ByteFits(b: Byte)
    ensures Fits(Wide(b), 8)
  {
    var r := Wide(b);
    assert Fits(r >> 8, 0);
    assert Fits(r >> 7, 1);
    assert Fits(r >> 6, 2);
    assert Fits(r >> 5, 3);
    assert Fits(r >> 4, 4);
    assert Fits(r >> 3, 5);
    assert Fits(r >> 2, 6);
    assert Fits(r >> 1, 7);
  }

  lemma {:induction false} StepsFirst(r: bv16, n: nat)
    ensures BitSteps(r, n + 1) == BitSteps(BitStep(r), n)
  {
    hide BitStep;
    if n > 0 {
      StepsFirst(r, n - 1);
    }
  }

  /** Up to sixteen bits can be mixed in at once and then stepped through. */
  lemma {:induction false} FeedBits(r: bv16, bits: seq<bool>)
    requires |bits| <= 16
    ensures BitRegister(r, bits) == BitSteps(Xor(r, Pack(bits)), |bits|)
    decreases |bits|
  {
    if bits == [] {
      XorZeroRight(r);
    } else {
      var b, p, n := Bit(bits[0]), Pack(bits[1..]), |bits| - 1;
      PackFits(bits);
      PackParts(bits[0], p);
      FeedBits(BitStep(Xor(r, b)), bits[1..]);
      assert BitStep(Double(p)) == p;
      hide BitStep, BitSteps, Xor, Low, Half, Double, Bit;
      BitStepLinear(Xor(r, b), Double(p));
      XorAssociative(r, b, Double(p));
      StepsFirst(Xor(r, Pack(bits)), n);
    }
  }

  lemma XorZeroRight(r: bv16)
    ensures Xor(r, 0) == r && Xor(0, r) == r
  {
  }

  lemma {:induction false} BitRegisterConcat(r: bv16, a: seq<bool>, b: seq<bool>)
    ensures BitRegister(r, a + b) == BitRegister(BitRegister(r, a), b)
    decreases |a|
  {
    hide BitStep, Xor, Bit;
    if a == [] {
      assert a + b == b;
    } else {
      assert (a + b)[1..] == a[1..] + b;
      BitRegisterConcat(BitStep(Xor(r, Bit(a[0]))), a[1..], b);
    }
  }

  /** Byte by byte or bit by bit, the register is the same. */
  lemma {:induction false} RegisterBitwise(r: bv16, data: seq<Byte>)
    ensures Register(r, data) == BitRegister(r, DataBits(data))
  {
    hide BitSteps, Xor, Wide, Bits, Pack;
    if data == [] {
    } else {
      var init, b := data[..|data| - 1], Wide(data[|data| - 1]);
      RegisterBitwise(r, init);
      BitRegisterConcat(r, DataBits(init), Bits(b, 8));
      hide BitRegister, Fits;
      FeedBits(Register(r, init), Bits(b, 8));
      ByteFits(data[|data| - 1]);
      PackBits(b, 8);
    }
  }

  lemma {:induction false} BitRegisterInjective(r: bv16, s: bv16, bits: seq<bool>)
    ensures BitRegister(r, bits) == BitRegister(s, bits) ==> r == s
    decreases |bits|
  {
    hide BitStep, Xor, Bit;
    if bits != [] {
      var b := Bit(bits[0]);
      BitRegisterInjective(BitStep(Xor(r, b)), BitStep(Xor(s, b)), bits[1..]);
      BitStepInjective(Xor(r, b), Xor(s, b));
      XorTwice(r, b);
      XorTwice(s, b);
    }
  }

  lemma {:induction false} SilentBits(bits: seq<bool>)
    requires forall i :: 0 <= i < |bits| ==> !bits[i]
    ensures BitRegister(0, bits) == 0
    decreases |bits|
  {
    if bits != [] {
      assert BitStep(Xor(0, Bit(bits[0]))) == 0;
      SilentBits(bits[1..]);
    }
  }

  lemma {:induction false} StepsOfZero(n: nat)
    ensures BitSteps(0, n) == 0
  {
    if n > 0 {
      StepsOfZero(n - 1);
    }
  }

  /** Sixteen or fewer bits that leave the empty register empty are all clear. */
  lemma WindowSilent(bits: seq<bool>)
    requires |bits| <= 16 && BitRegister(0, bits) == 0
    ensures forall i :: 0 <= i < |bits| ==> !bits[i]
  {
    hide *;
    FeedBits(0, bits);
    XorZeroRight(Pack(bits));
    StepsOfZero(|bits|);
    BitStepsInjective(Pack(bits), 0, |bits|);
    PackZero(bits);
  }

  /** All set bits lie within sixteen consecutive ones, wherever the byte boundaries fall. */
  ghost predicate Burst(e: seq<Byte>, start: nat) {
    forall i :: 0 <= i < |DataBits(e)| && DataBits(e)[i] ==> start <= i < start + 16
  }

  /** The register is linear in the data. */
  lemma {:induction false} RegisterLinear(r: bv16, w: seq<Byte>, e: seq<Byte>)
    requires |w| == |e|
    ensures Register(r, Flip(w, e)) == Xor(Register(r, w), Register(0, e))
  {
    hide BitSteps, Xor, Wide, FlipByte;
    if w == [] {
      XorZeroRight(r);
    } else {
      var n := |w| - 1;
      var x, y, a, b := Register(r, w[..n]), Register(0, e[..n]), Wide(w[n]), Wide(e[n]);
      assert Flip(w, e)[..n] == Flip(w[..n], e[..n]);
      RegisterLinear(r, w[..n], e[..n]);
      WideXor(w[n], e[n]);
      XorPairs(x, y, a, b);
      BitStepsLinear(Xor(x, a), Xor(y, b), 8);
    }
  }

  lemma XorPairs(x: bv16, y: bv16, a: bv16, b: bv16)
    ensures Xor(Xor(x, y), Xor(a, b)) == Xor(Xor(x, a), Xor(y, b))
  {
    hide Xor;
    XorAssociative(x, y, Xor(a, b));
    XorAssociative(y, a, b);
    XorCommutes(y, a);
    XorAssociative(a, y, b);
    XorAssociative(x, a, Xor(y, b));
  }

  lemma ClearByte(a: Byte, b: Byte)
    requires Wide(b) == 0
    ensures FlipByte(a, b) == a
  {
  }

  lemma {:induction false} PackClear(bits: seq<bool>)
    requires forall i :: 0 <= i < |bits| ==> !bits[i]
    ensures Pack(bits) == 0
  {
    if bits != [] {
      PackClear(bits[1..]);
      assert Xor(Bit(false), Double(0)) == 0;
    }
  }

  /** A pattern without a set bit flips nothing. */
  lemma {:induction false} ClearPattern(w: seq<Byte>, e: seq<Byte>)
    requires |w| == |e| && forall i :: 0 <= i < |DataBits(e)| ==> !DataBits(e)[i]
    ensures Flip(w, e) == w
  {
    hide Wide, Bits, Pack, FlipByte, Fits;
    if w != [] {
      var n := |w| - 1;
      var last := Bits(Wide(e[n]), 8);
      assert DataBits(e) == DataBits(e[..n]) + last;
      assert forall i :: 0 <= i < 8 * n ==> DataBits(e[..n])[i] == DataBits(e)[i];
      assert forall i :: 0 <= i < 8 ==> last[i] == DataBits(e)[8 * n + i];
      ClearPattern(w[..n], e[..n]);
      PackClear(last);
      ByteFits(e[n]);
      PackBits(Wide(e[n]), 8);
      ClearByte(w[n], e[n]);
      assert forall i :: 0 <= i < n ==> Flip(w, e)[i] == Flip(w[..n], e[..n])[i];
    }
  }

  /** Changing any bits of a passing frame that lie within sixteen consecutive ones breaks the check. */
  lemma BurstsDetected(w: seq<Byte>, e: seq<Byte>, start: nat)
    requires |w| == |e| >= 2 && CheckPasses(w)
    requires Burst(e, start) && Flip(w, e) != w
    ensures !CheckPasses(Flip(w, e))
  {
    CheckIsZeroResidue(w);
    CheckIsZeroResidue(Flip(w, e));
    RegisterLinear(START, w, e);
    XorZeroRight(Register(0, e));
    RegisterBitwise(0, e);
    if CheckPasses(Flip(w, e)) {
      BurstSilent(DataBits(e), start);
      ClearPattern(w, e);
    }
  }

  lemma BurstSilent(bits: seq<bool>, start: nat)
    requires forall i :: 0 <= i < |bits| && bits[i] ==> start <= i < start + 16
    requires BitRegister(0, bits) == 0
    ensures forall i :: 0 <= i < |bits| ==> !bits[i]
  {
    hide *;
    var n := |bits|;
    var a := if start < n then start else n;
    var b := if start + 16 < n then start + 16 else n;
    var before, window, after := bits[..a], bits[a..b], bits[b..];
    assert bits == before + (window + after);
    SilentBits(before);
    SilentBits(after);
    BitRegisterConcat(0, before, window + after);
    BitRegisterConcat(0, window, after);
    BitRegisterInjective(BitRegister(0, window), 0, after);
    WindowSilent(window);
    forall i | 0 <= i < n ensures !bits[i] {
      if a <= i < b {
        assert !window[i - a];
      }
    }
  }

  // ----- which polynomial and which start value -----

  lemma FeedAt(r: bv16, bits: seq<bool>, k: nat, next: bv16)
    requires k < |bits| && next == BitStep(Xor(r, Bit(bits[k])))
    ensures BitRegister(r, bits[k..]) == BitRegister(next, bits[k + 1..])
  {
    hide BitStep, Xor, Bit;
    assert bits[k..][1..] == bits[k + 1..];
  }

  /** The bits of the generator, its highest power first: powers 16, 12, 5 and 0. */
  predicate GeneratorBit(i: int) { i == 0 || i == 4 || i == 11 || i == 16 }

  lemma GeneratorSilent(bits: seq<bool>)
    requires |bits| == 17 && forall i :: 0 <= i < 17 ==> bits[i] == GeneratorBit(i)
    ensures BitRegister(0, bits) == 0
  {
    hide BitRegister;
    assert bits[0..] == bits;
    FeedAt(0x0000, bits, 0, 0x8408);
    FeedAt(0x8408, bits, 1, 0x4204);
    FeedAt(0x4204, bits, 2, 0x2102);
    FeedAt(0x2102, bits, 3, 0x1081);
    FeedAt(0x1081, bits, 4, 0x0840);
    FeedAt(0x0840, bits, 5, 0x0420);
    FeedAt(0x0420, bits, 6, 0x0210);
    FeedAt(0x0210, bits, 7, 0x0108);
    FeedAt(0x0108, bits, 8, 0x0084);
    FeedAt(0x0084, bits, 9, 0x0042);
    FeedAt(0x0042, bits, 10, 0x0021);
    FeedAt(0x0021, bits, 11, 0x0010);
    FeedAt(0x0010, bits, 12, 0x0008);
    FeedAt(0x0008, bits, 13, 0x0004);
    FeedAt(0x0004, bits, 14, 0x0002);
    FeedAt(0x0002, bits, 15, 0x0001);
    FeedAt(0x0001, bits, 16, 0x0000);
    assert bits[17..] == [];
    EmptyRegister(0);
  }

  lemma EmptyRegister(r: bv16)
    ensures BitRegister(r, []) == r
  {
  }

  /**
   * What tells the polynomial from every other of its length: flipping just its own bits, at any
   * place, goes undetected.
   */
  lemma GeneratorUndetected(w: seq<Byte>, e: seq<Byte>, start: nat)
    requires |w| == |e| >= 2 && CheckPasses(w) && start + 17 <= 8 * |e|
    requires forall i :: 0 <= i < |DataBits(e)| ==> DataBits(e)[i] == GeneratorBit(i - start)
    ensures CheckPasses(Flip(w, e))
  {
    hide *;
    CheckIsZeroResidue(w);
    CheckIsZeroResidue(Flip(w, e));
    CrcLinear(w, e);
    RegisterBitwise(0, e);
    GeneratorPassesThrough(DataBits(e), start);
    XorZeroRight(0);
  }

  lemma CrcLinear(w: seq<Byte>, e: seq<Byte>)
    requires |w| == |e|
    ensures Crc(Flip(w, e)) == Xor(Crc(w), Register(0, e))
  {
    hide Register, Flip, Xor;
    RegisterLinear(START, w, e);
  }

  lemma GeneratorPassesThrough(bits: seq<bool>, start: nat)
    requires start + 17 <= |bits| && forall i :: 0 <= i < |bits| ==> bits[i] == GeneratorBit(i - start)
    ensures BitRegister(0, bits) == 0
  {
    hide BitRegister;
    var before, window, after := bits[..start], bits[start..start + 17], bits[start + 17..];
    assert bits == before + (window + after);
    SilentBits(before);
    SilentBits(after);
    GeneratorSilent(window);
    BitRegisterConcat(0, before, window + after);
    BitRegisterConcat(0, window, after);
  }

  lemma Eight(r: bv16, a: bv16, b: bv16, c: bv16, d: bv16, e: bv16, f: bv16, g: bv16, h: bv16)
    requires BitStep(r) == a && BitStep(a) == b && BitStep(b) == c && BitStep(c) == d
    requires BitStep(d) == e && BitStep(e) == f && BitStep(f) == g && BitStep(g) == h
    ensures BitSteps(r, 8) == h
  {
    hide BitStep;
    assert BitSteps(r, 1) == a && BitSteps(r, 2) == b && BitSteps(r, 3) == c && BitSteps(r, 4) == d;
    assert BitSteps(r, 5) == e && BitSteps(r, 6) == f && BitSteps(r, 7) == g;
  }

  lemma DigitsOneToThree()
    ensures ByteStep(0xFFFF, 0x31) == 0x2F8D
    ensures ByteStep(0x2F8D, 0x32) == 0x4D53
    ensures ByteStep(0x4D53, 0x33) == 0x634B
  {
    hide BitSteps;
    Eight(0xFFCE, 0x7FE7, 0xBBFB, 0xD9F5, 0xE8F2, 0x7479, 0xBE34, 0x5F1A, 0x2F8D);
    Eight(0x2FBF, 0x93D7, 0xCDE3, 0xE2F9, 0xF574, 0x7ABA, 0x3D5D, 0x9AA6, 0x4D53);
    Eight(0x4D60, 0x26B0, 0x1358, 0x09AC, 0x04D6, 0x026B, 0x853D, 0xC696, 0x634B);
  }

  lemma DigitsFourToSix()
    ensures ByteStep(0x634B, 0x34) == 0x8B13
    ensures ByteStep(0x8B13, 0x35) == 0x44BF
    ensures ByteStep(0x44BF, 0x36) == 0x198D
  {
    hide BitSteps;
    Eight(0x637F, 0xB5B7, 0xDED3, 0xEB61, 0xF1B8, 0x78DC, 0x3C6E, 0x1E37, 0x8B13);
    Eight(0x8B26, 0x4593, 0xA6C1, 0xD768, 0x6BB4, 0x35DA, 0x1AED, 0x897E, 0x44BF);
    Eight(0x4489, 0xA64C, 0x5326, 0x2993, 0x90C1, 0xCC68, 0x6634, 0x331A, 0x198D);
  }

  lemma DigitsSevenToNine()
    ensures ByteStep(0x198D, 0x37) == 0x1AC8
    ensures ByteStep(0x1AC8, 0x38) == 0xF795
    ensures ByteStep(0xF795, 0x39) == 0x6F91
  {
    hide BitSteps;
    Eight(0x19BA, 0x0CDD, 0x8266, 0x4133, 0xA491, 0xD640, 0x6B20, 0x3590, 0x1AC8);
    Eight(0x1AF0, 0x0D78, 0x06BC, 0x035E, 0x01AF, 0x84DF, 0xC667, 0xE73B, 0xF795);
    Eight(0xF7AC, 0x7BD6, 0x3DEB, 0x9AFD, 0xC976, 0x64BB, 0xB655, 0xDF22, 0x6F91);
  }

  lemma OneMore(d: seq<Byte>, b: Byte, c: bv16, next: bv16) returns (more: seq<Byte>)
    requires Crc(d) == c && ByteStep(c, b) == next
    ensures more == d + [b] && Crc(more) == next
  {
    hide ByteStep;
    more := d + [b];
    assert more[..|d|] == d;
  }

  lemma NothingYet() returns (d: seq<Byte>)
    ensures d == [] && Crc(d) == 0xFFFF
  {
    d := [];
  }

  /** The check value of the nine digits 1 to 9, as the repository's own tests have it. */
  lemma CheckValue()
    ensures Crc([0x31, 0x32, 0x33, 0x34, 0x35, 0x36, 0x37, 0x38, 0x39]) == 28561
  {
    hide *;
    DigitsOneToThree();
    DigitsFourToSix();
    DigitsSevenToNine();
    var d := NothingYet();
    d := OneMore(d, 0x31, 0xFFFF, 0x2F8D);
    d := OneMore(d, 0x32, 0x2F8D, 0x4D53);
    d := OneMore(d, 0x33, 0x4D53, 0x634B);
    d := OneMore(d, 0x34, 0x634B, 0x8B13);
    d := OneMore(d, 0x35, 0x8B13, 0x44BF);
    d := OneMore(d, 0x36, 0x44BF, 0x198D);
    d := OneMore(d, 0x37, 0x198D, 0x1AC8);
    d := OneMore(d, 0x38, 0x1AC8, 0xF795);
    d := OneMore(d, 0x39, 0xF795, 0x6F91);
    assert d == [0x31, 0x32, 0x33, 0x34, 0x35, 0x36, 0x37, 0x38, 0x39];
  }
}
