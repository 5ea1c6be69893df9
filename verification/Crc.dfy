/**
 * The checksum of the configuration block (sidetnfs_config.c, 55-68): the bitwise form of the frame
 * check sequence of section 3.2.9 of IEEE 802.3, and the errors it is sure to detect.
 */
module Crc {

  const POLY: bv32 := 0xEDB8_8320
  const ONES: bv32 := 0xFFFF_FFFF

  function Xor(a: bv32, b: bv32): bv32 { a ^ b }

  function Half(a: bv32): bv32 { a >> 1 }

  predicate Odd(a: bv32) { a & 1 == 1 }

  function Feedback(a: bv32): bv32 { if Odd(a) then POLY else 0 }

  /** One step of the shift register. */
  function BitStep(crc: bv32): bv32 {
    Xor(Half(crc), Feedback(crc))
  }

  function BitSteps(crc: bv32, n: nat): bv32
    decreases n
  {
    if n == 0 then crc else BitSteps(BitStep(crc), n - 1)
  }

  function Wide(b: bv8): bv32 { b as bv32 }

  function ByteStep(crc: bv32, b: bv8): bv32 {
    BitSteps(Xor(crc, Wide(b)), 8)
  }

  function Run(crc: bv32, data: seq<bv8>): bv32
    decreases |data|
  {
    if data == [] then crc else Run(ByteStep(crc, data[0]), data[1..])
  }

  function Crc32(data: seq<bv8>): bv32 {
    Xor(Run(ONES, data), ONES)
  }

  /** `sidetnfs_crc32`. */
  method ComputeCrc32(data: seq<bv8>) returns (crc: bv32)
    ensures crc == Crc32(data)
  {
    hide Xor, Half, Feedback, Wide, BitStep;
    crc := ONES;
    for i := 0 to |data|
      invariant Run(crc, data[i..]) == Run(ONES, data)
    {
      assert data[i..][1..] == data[i + 1..];
      ghost var next := ByteStep(crc, data[i]);
      crc := XorByte(crc, data[i]);
      for bit := 0 to 8
        invariant BitSteps(crc, 8 - bit) == next
      {
        crc := ShiftBit(crc);
      }
    }
    crc := Invert(crc);
  }

  /** `crc ^= data[i]` */
  method XorByte(crc: bv32, b: bv8) returns (r: bv32)
    ensures r == Xor(crc, Wide(b))
  {
    r := crc ^ (b as bv32);
  }

  /** The body of the loop over bits: the mask is all ones or all zeros. */
  method ShiftBit(crc: bv32) returns (r: bv32)
    ensures r == BitStep(crc)
  {
    MaskedPolynomial(crc);
    var mask: bv32 := 0 - (crc & 1);
    hide Feedback;
    r := (crc >> 1) ^ (POLY & mask);
  }

  method Invert(crc: bv32) returns (r: bv32)
    ensures r == Xor(crc, ONES)
  {
    r := crc ^ ONES;
  }

  lemma MaskOfBit(a: bv32)
    ensures 0 - (a & 1) == if Odd(a) then ONES else 0
  {
  }

  lemma MaskedPolynomial(a: bv32)
    ensures POLY & (0 - (a & 1)) == Feedback(a)
  {
    MaskOfBit(a);
    assert POLY & ONES == POLY && POLY & 0 == 0;
  }

  // -- One bit ------------------------------------------------------------------------------------

  function BitUnstep(crc: bv32): bv32 {
    if crc & 0x8000_0000 == 0 then crc << 1 else ((crc ^ POLY) << 1) | 1
  }

  /** A bit step loses nothing: it can be undone, and every register content can be reached. */
  lemma BitStepIsBijective(crc: bv32)
    ensures BitUnstep(BitStep(crc)) == crc
    ensures BitStep(BitUnstep(crc)) == crc
  {
    UnstepStep(crc);
    StepUnstep(crc);
  }

  lemma UnstepStep(crc: bv32)
    ensures BitUnstep(BitStep(crc)) == crc
  {
  }

  lemma StepUnstep(crc: bv32)
    ensures BitStep(BitUnstep(crc)) == crc
  {
    if crc & 0x8000_0000 == 0 {
      ShiftedIn(crc);
      StepOfEven(BitUnstep(crc));
    } else {
      FedBack(crc);
      StepOfOdd(BitUnstep(crc));
    }
    hide *;
  }

  lemma ShiftedIn(crc: bv32)
    requires crc & 0x8000_0000 == 0
    ensures !Odd(BitUnstep(crc)) && Half(BitUnstep(crc)) == crc
  {
  }

  lemma FedBack(crc: bv32)
    requires crc & 0x8000_0000 != 0
    ensures Odd(BitUnstep(crc)) && Xor(Half(BitUnstep(crc)), POLY) == crc
  {
  }

  lemma StepOfEven(a: bv32)
    requires !Odd(a)
    ensures BitStep(a) == Half(a)
  {
  }

  lemma StepOfOdd(a: bv32)
    requires Odd(a)
    ensures BitStep(a) == Xor(Half(a), POLY)
  {
  }

  lemma HalfIsLinear(a: bv32, b: bv32)
    ensures Half(Xor(a, b)) == Xor(Half(a), Half(b))
  {
  }

  lemma OddIsLinear(a: bv32, b: bv32)
    ensures Odd(Xor(a, b)) <==> Odd(a) != Odd(b)
  {
  }

  lemma FeedbackIsLinear(a: bv32, b: bv32)
    ensures Feedback(Xor(a, b)) == Xor(Feedback(a), Feedback(b))
  {
    OddIsLinear(a, b);
    hide Odd;
  }

  lemma XorAssociates(a: bv32, b: bv32, c: bv32)
    ensures Xor(Xor(a, b), c) == Xor(a, Xor(b, c))
  {
  }

  lemma XorCommutes(a: bv32, b: bv32)
    ensures Xor(a, b) == Xor(b, a)
  {
  }

  lemma XorCancels(a: bv32, b: bv32)
    ensures Xor(Xor(a, b), b) == a
  {
  }

  lemma XorInterchange(a: bv32, b: bv32, c: bv32, d: bv32)
    ensures Xor(Xor(a, b), Xor(c, d)) == Xor(Xor(a, c), Xor(b, d))
  {
    hide Xor;
    XorAssociates(a, b, Xor(c, d));
    XorAssociates(b, c, d);
    XorCommutes(b, c);
    XorAssociates(c, b, d);
    XorAssociates(a, c, Xor(b, d));
  }

  /** Errors in the register spread independently of its contents. */
  lemma BitStepIsLinear(a: bv32, b: bv32)
    ensures BitStep(Xor(a, b)) == Xor(BitStep(a), BitStep(b))
  {
    hide Xor, Half, Feedback;
    HalfIsLinear(a, b);
    FeedbackIsLinear(a, b);
    XorInterchange(Half(a), Half(b), Feedback(a), Feedback(b));
  }

  // -- Many bits ----------------------------------------------------------------------------------

  lemma {:induction false} BitStepsLinear(a: bv32, b: bv32, n: nat)
    ensures BitSteps(Xor(a, b), n) == Xor(BitSteps(a, n), BitSteps(b, n))
    decreases n
  {
    hide BitStep, Xor;
    if n > 0 {
      BitStepIsLinear(a, b);
      BitStepsLinear(BitStep(a), BitStep(b), n - 1);
    }
  }

  lemma {:induction false} BitStepsInjective(a: bv32, b: bv32, n: nat)
    requires BitSteps(a, n) == BitSteps(b, n)
    ensures a == b
    decreases n
  {
    hide BitStep, BitUnstep;
    if n > 0 {
      BitStepsInjective(BitStep(a), BitStep(b), n - 1);
      UnstepStep(a);
      UnstepStep(b);
    }
  }

  lemma {:induction false} BitStepsCompose(a: bv32, m: nat, n: nat)
    ensures BitSteps(BitSteps(a, m), n) == BitSteps(a, m + n)
    decreases m
  {
    hide BitStep;
    if m > 0 { BitStepsCompose(BitStep(a), m - 1, n); }
  }

  function Halves(a: bv32, n: nat): bv32
    decreases n
  {
    if n == 0 then a else Halves(Half(a), n - 1)
  }

  predicate EvenFor(a: bv32, n: nat)
    decreases n
  {
    n == 0 || (!Odd(a) && EvenFor(Half(a), n - 1))
  }

  /** As long as zeros come out, stepping is shifting. */
  lemma {:induction false} StepsOfEven(a: bv32, n: nat)
    requires EvenFor(a, n)
    ensures BitSteps(a, n) == Halves(a, n)
    decreases n
  {
    if n > 0 {
      assert BitStep(a) == Half(a) by { StepOfEven(a); }
      StepsOfEven(Half(a), n - 1);
    }
  }

  /** A byte waiting above the low byte reaches it after eight steps, unchanged. */
  lemma ByteComesDown(a: bv32)
    requires a & 0xFF == 0
    ensures BitSteps(a, 8) == Down(a)
  {
    LowByteClear(a);
    EightHalves(a);
    DownIs(a);
    hide *;
    StepsOfEven(a, 8);
  }

  lemma DownIs(a: bv32)
    ensures Down(a) == a >> 8
  {
  }

  lemma LowByteClear(a: bv32)
    requires a & 0xFF == 0
    ensures EvenFor(a, 8)
  {
    var b, c, d, e, f, g, h := Half(a), a >> 2, a >> 3, a >> 4, a >> 5, a >> 6, a >> 7;
    assert !Odd(a) && !Odd(b) && !Odd(c) && !Odd(d) && !Odd(e) && !Odd(f) && !Odd(g) && !Odd(h);
    HalfOfShift(a);
    hide Half, Odd;
    assert EvenFor(h, 1);
    assert EvenFor(g, 2);
    assert EvenFor(f, 3);
    assert EvenFor(e, 4);
    assert EvenFor(d, 5);
    assert EvenFor(c, 6);
    assert EvenFor(b, 7);
  }

  lemma HalfOfShift(a: bv32)
    ensures Half(Half(a)) == a >> 2 && Half(a >> 2) == a >> 3 && Half(a >> 3) == a >> 4 && Half(a >> 4) == a >> 5
    ensures Half(a >> 5) == a >> 6 && Half(a >> 6) == a >> 7 && Half(a >> 7) == a >> 8
  {
  }

  lemma EightHalves(a: bv32)
    ensures Halves(a, 8) == a >> 8
  {
    HalfOfShift(a);
    hide Half;
    assert Halves(a >> 7, 1) == a >> 8;
    assert Halves(a >> 6, 2) == a >> 8;
    assert Halves(a >> 5, 3) == a >> 8;
    assert Halves(a >> 4, 4) == a >> 8;
    assert Halves(a >> 3, 5) == a >> 8;
    assert Halves(a >> 2, 6) == a >> 8;
    assert Halves(Half(a), 7) == a >> 8;
  }

  // -- Up to four bytes are one word --------------------------------------------------------------

  /** Little-endian. */
  function Word(bs: seq<bv8>): bv32
    decreases |bs|
  {
    if bs == [] then 0 else Push(bs[0], Word(bs[1..]))
  }

  function Push(b: bv8, w: bv32): bv32 { Wide(b) | (w << 8) }

  predicate TopClear(w: bv32) { w & 0xFF00_0000 == 0 }

  function LowByte(w: bv32): bv8 { (w & 0xFF) as bv8 }

  function UpperBytes(w: bv32): bv32 { w & 0xFFFF_FF00 }

  function Down(w: bv32): bv32 { w >> 8 }

  lemma PushLow(b: bv8, w: bv32)
    ensures LowByte(Push(b, w)) == b
  {
  }

  lemma PushDown(b: bv8, w: bv32)
    requires TopClear(w)
    ensures Down(Push(b, w)) == w
  {
  }

  lemma PushSplits(b: bv8, w: bv32)
    ensures Xor(Wide(b), UpperBytes(Push(b, w))) == Push(b, w)
  {
  }

  lemma UpperDown(w: bv32)
    ensures UpperBytes(w) & 0xFF == 0 && Down(UpperBytes(w)) == Down(w)
  {
  }

  lemma {:induction false} WordTopClear(bs: seq<bv8>)
    requires |bs| <= 3
    ensures TopClear(Word(bs))
  {
    if |bs| == 0 {
    } else if |bs| == 1 {
      WordOf1(bs);
      Push1(bs[0]);
    } else if |bs| == 2 {
      WordOf2(bs);
      Push2(bs[0], bs[1]);
    } else {
      WordOf2(bs[1..]);
      Push3(bs[0], bs[1], bs[2]);
    }
  }

  lemma WordOf1(bs: seq<bv8>)
    requires |bs| == 1
    ensures Word(bs) == Push(bs[0], 0)
  {
    hide Push;
  }

  lemma WordOf2(bs: seq<bv8>)
    requires |bs| == 2
    ensures Word(bs) == Push(bs[0], Push(bs[1], 0))
  {
    hide Push;
    WordOf1(bs[1..]);
  }

  lemma Push1(a: bv8)
    ensures TopClear(Push(a, 0))
  {
  }

  lemma Push2(a: bv8, b: bv8)
    ensures TopClear(Push(a, Push(b, 0)))
  {
  }

  lemma Push3(a: bv8, b: bv8, c: bv8)
    ensures TopClear(Push(a, Push(b, Push(c, 0))))
  {
  }

  /** Of a word fed in at once, the low byte is absorbed and the rest moves down. */
  lemma AbsorbByte(crc: bv32, b: bv8, w: bv32)
    requires TopClear(w)
    ensures BitSteps(Xor(crc, Push(b, w)), 8) == Xor(ByteStep(crc, b), w)
  {
    var high := UpperBytes(Push(b, w));
    PushSplits(b, w);
    PushDown(b, w);
    UpperDown(Push(b, w));
    ByteComesDown(high);
    hide *;
    XorAssociates(crc, Wide(b), high);
    BitStepsLinear(Xor(crc, Wide(b)), high, 8);
    ByteStepIs(crc, b);
  }

  lemma ByteStepIs(crc: bv32, b: bv8)
    ensures ByteStep(crc, b) == BitSteps(Xor(crc, Wide(b)), 8)
  {
  }

  /** Four bytes, one after the other, act like one 32-bit word and as many bit steps. */
  lemma {:induction false} RunIsWordSteps(crc: bv32, bs: seq<bv8>)
    requires |bs| <= 4
    ensures Run(crc, bs) == BitSteps(Xor(crc, Word(bs)), 8 * |bs|)
    decreases |bs|
  {
    if bs == [] {
      XorNothing(crc);
    } else {
      var rest := bs[1..];
      WordTopClear(rest);
      hide Xor, Push, BitSteps, ByteStep, TopClear, Wide;
      AbsorbByte(crc, bs[0], Word(rest));
      BitStepsCompose(Xor(crc, Word(bs)), 8, 8 * |rest|);
      RunIsWordSteps(ByteStep(crc, bs[0]), rest);
    }
  }

  lemma XorNothing(a: bv32)
    ensures Xor(a, 0) == a
  {
  }

  lemma {:induction false} WordIsInjective(x: seq<bv8>, y: seq<bv8>)
    requires |x| == |y| <= 4 && Word(x) == Word(y)
    ensures x == y
    decreases |x|
  {
    if x != [] {
      WordTopClear(x[1..]);
      WordTopClear(y[1..]);
      hide Push, TopClear, LowByte, Down;
      PushLow(x[0], Word(x[1..]));
      PushLow(y[0], Word(y[1..]));
      PushDown(x[0], Word(x[1..]));
      PushDown(y[0], Word(y[1..]));
      WordIsInjective(x[1..], y[1..]);
      assert x == [x[0]] + x[1..] && y == [y[0]] + y[1..];
    }
  }

  /** The bytes of a word, low byte first. */
  function WordBytes(w: bv32): (b: seq<bv8>)
    ensures |b| == 4
  {
    [LowByte(w), LowByte(Down(w)), LowByte(Down(Down(w))), LowByte(Down(Down(Down(w))))]
  }

  lemma FourPushes(w: bv32)
    ensures Push(LowByte(w), Push(LowByte(Down(w)), Push(LowByte(Down(Down(w))), Push(LowByte(Down(Down(Down(w)))), 0)))) == w
  {
  }

  lemma WordOfBytes(w: bv32)
    ensures Word(WordBytes(w)) == w
  {
    FourPushes(w);
    var b := WordBytes(w);
    hide Push, LowByte, Down;
    WordOf2(b[2..]);
    assert b[1..][1..] == b[2..];
    assert Word(b[1..]) == Push(b[1], Word(b[2..]));
  }

  lemma XorInjective(c: bv32, a: bv32, b: bv32)
    requires Xor(c, a) == Xor(c, b)
    ensures a == b
  {
    XorCommutes(c, a);
    XorCommutes(c, b);
    XorCancels(a, c);
    XorCancels(b, c);
    hide Xor;
  }

  /** From one register content, different four bytes lead to different contents. */
  lemma FourBytesAreAnInjection(crc: bv32, x: seq<bv8>, y: seq<bv8>)
    requires |x| == |y| <= 4 && Run(crc, x) == Run(crc, y)
    ensures x == y
  {
    hide *;
    RunIsWordSteps(crc, x);
    RunIsWordSteps(crc, y);
    BitStepsInjective(Xor(crc, Word(x)), Xor(crc, Word(y)), 8 * |x|);
    XorInjective(crc, Word(x), Word(y));
    WordIsInjective(x, y);
  }

  // -- Whole buffers ------------------------------------------------------------------------------

  lemma {:induction false} RunAppend(crc: bv32, a: seq<bv8>, b: seq<bv8>)
    ensures Run(crc, a + b) == Run(Run(crc, a), b)
    decreases |a|
  {
    hide ByteStep;
    if a == [] {
      assert a + b == b;
    } else {
      assert (a + b)[1..] == a[1..] + b;
      RunAppend(ByteStep(crc, a[0]), a[1..], b);
    }
  }

  function EightSteps(crc: bv32): bv32 {
    BitStep(BitStep(BitStep(BitStep(BitStep(BitStep(BitStep(BitStep(crc))))))))
  }

  lemma EightStepsAre(crc: bv32)
    ensures BitSteps(crc, 8) == EightSteps(crc)
  {
    hide BitStep;
    assert forall a :: BitSteps(a, 2) == BitStep(BitStep(a));
    BitStepsCompose(crc, 2, 6);
    BitStepsCompose(BitSteps(crc, 2), 2, 4);
    BitStepsCompose(BitSteps(BitSteps(crc, 2), 2), 2, 2);
  }

  lemma NextByte(crc: bv32, b: bv8, rest: seq<bv8>)
    ensures Run(crc, [b] + rest) == Run(EightSteps(crc ^ (b as bv32)), rest)
  {
    assert ([b] + rest)[1..] == rest;
    EightStepsAre(crc ^ (b as bv32));
    hide BitSteps, EightSteps;
  }

  lemma Check1To3(rest: seq<bv8>)
    ensures Run(0xFFFF_FFFF, [0x31] + ([0x32] + ([0x33] + rest))) == Run(0x77B7_9C2D, rest)
  {
    NextByte(0xFFFF_FFFF, 0x31, [0x32] + ([0x33] + rest));
    NextByte(0x7C23_1048, 0x32, [0x33] + rest);
    NextByte(0xB0AC_BB32, 0x33, rest);
    hide Run;
  }

  lemma Check4To6(rest: seq<bv8>)
    ensures Run(0x77B7_9C2D, [0x34] + ([0x35] + ([0x36] + rest))) == Run(0xF68D_2C9E, rest)
  {
    NextByte(0x77B7_9C2D, 0x34, [0x35] + ([0x36] + rest));
    NextByte(0x641C_1F5C, 0x35, [0x36] + rest);
    NextByte(0x340A_C5E3, 0x36, rest);
    hide Run;
  }

  lemma Check7To9(rest: seq<bv8>)
    ensures Run(0xF68D_2C9E, [0x37] + ([0x38] + ([0x39] + rest))) == Run(0x340B_C6D9, rest)
  {
    NextByte(0xF68D_2C9E, 0x37, [0x38] + ([0x39] + rest));
    NextByte(0xAFFC_9660, 0x38, [0x39] + rest);
    NextByte(0x651F_2550, 0x39, rest);
    hide Run;
  }

  /** The published check value: the checksum of the text "123456789". */
  lemma CheckValue()
    ensures Crc32([0x31, 0x32, 0x33, 0x34, 0x35, 0x36, 0x37, 0x38, 0x39]) == 0xCBF4_3926
  {
    var none: seq<bv8> := [];
    var to9 := [0x37] + ([0x38] + ([0x39] + none));
    var to6 := [0x34] + ([0x35] + ([0x36] + to9));
    assert [0x31, 0x32, 0x33, 0x34, 0x35, 0x36, 0x37, 0x38, 0x39] == [0x31] + ([0x32] + ([0x33] + to6));
    Check1To3(to6);
    Check4To6(to9);
    Check7To9(none);
    hide ByteStep;
  }

  /** Registers that differ stay different whatever follows. */
  lemma {:induction false} RunIsInjective(a: bv32, b: bv32, data: seq<bv8>)
    requires Run(a, data) == Run(b, data)
    ensures a == b
    decreases |data|
  {
    hide ByteStep;
    if data != [] {
      RunIsInjective(ByteStep(a, data[0]), ByteStep(b, data[0]), data[1..]);
      ByteStepIs(a, data[0]);
      ByteStepIs(b, data[0]);
      hide Xor, BitSteps;
      BitStepsInjective(Xor(a, Wide(data[0])), Xor(b, Wide(data[0])), 8);
      XorCommutes(a, Wide(data[0]));
      XorCommutes(b, Wide(data[0]));
      XorInjective(Wide(data[0]), a, b);
    }
  }

  lemma BurstChangesRegister(crc: bv32, head: seq<bv8>, x: seq<bv8>, y: seq<bv8>, tail: seq<bv8>)
    requires |x| == |y| <= 4 && Run(crc, head + x + tail) == Run(crc, head + y + tail)
    ensures x == y
  {
    hide *;
    RunAppend(crc, head + x, tail);
    RunAppend(crc, head + y, tail);
    RunAppend(crc, head, x);
    RunAppend(crc, head, y);
    RunIsInjective(Run(crc, head + x), Run(crc, head + y), tail);
    FourBytesAreAnInjection(Run(crc, head), x, y);
  }

  /** Changing up to four consecutive bytes of a buffer of any length changes its checksum. */
  lemma BurstsAreDetected(head: seq<bv8>, x: seq<bv8>, y: seq<bv8>, tail: seq<bv8>)
    requires |x| == |y| <= 4 && x != y
    ensures Crc32(head + x + tail) != Crc32(head + y + tail)
  {
    if Crc32(head + x + tail) == Crc32(head + y + tail) {
      XorCommutes(Run(ONES, head + x + tail), ONES);
      XorCommutes(Run(ONES, head + y + tail), ONES);
      XorInjective(ONES, Run(ONES, head + x + tail), Run(ONES, head + y + tail));
      BurstChangesRegister(ONES, head, x, y, tail);
    }
  }

  /** A stored block passes its check. */
  predicate Passes(stored: seq<bv8>)
    requires |stored| >= 4
  {
    Crc32(stored[..|stored| - 4]) == Word(stored[|stored| - 4..])
  }

  lemma XorToOnes(r: bv32, w: bv32)
    ensures Xor(r, w) == ONES <==> w == Xor(r, ONES)
  {
    hide Xor;
    XorCommutes(r, ONES);
    if Xor(r, w) == ONES {
      XorCommutes(r, w);
      XorCancels(w, r);
    }
    if w == Xor(r, ONES) {
      XorCommutes(r, w);
      XorCancels(ONES, r);
    }
  }

  /** What the check compares, as register contents. */
  lemma PassesIs(stored: seq<bv8>)
    requires |stored| >= 4
    ensures Passes(stored) <==> Xor(Run(ONES, stored[..|stored| - 4]), Word(stored[|stored| - 4..])) == ONES
  {
    hide Run, Word, Xor;
    XorToOnes(Run(ONES, stored[..|stored| - 4]), Word(stored[|stored| - 4..]));
  }

  lemma RunOverSum(stored: seq<bv8>)
    requires |stored| >= 4
    ensures Run(ONES, stored) == BitSteps(Xor(Run(ONES, stored[..|stored| - 4]), Word(stored[|stored| - 4..])), 32)
  {
    hide *;
    var data, sum := stored[..|stored| - 4], stored[|stored| - 4..];
    assert data + sum == stored;
    RunAppend(ONES, data, sum);
    RunIsWordSteps(Run(ONES, data), sum);
  }

  /** The check says that running over data and checksum together leaves one fixed register content. */
  lemma CheckIsResidue(stored: seq<bv8>)
    requires |stored| >= 4
    ensures Passes(stored) <==> Run(ONES, stored) == BitSteps(ONES, 32)
  {
    hide Passes, Run, BitSteps, Word, Xor;
    PassesIs(stored);
    RunOverSum(stored);
    var left := Xor(Run(ONES, stored[..|stored| - 4]), Word(stored[|stored| - 4..]));
    if Run(ONES, stored) == BitSteps(ONES, 32) { BitStepsInjective(left, ONES, 32); }
  }

  /** No stored block that passes turns into another one that passes by changing four consecutive bytes,
      be they data, checksum or some of both. */
  lemma StoredBurstsAreDetected(head: seq<bv8>, x: seq<bv8>, y: seq<bv8>, tail: seq<bv8>)
    requires |x| == |y| <= 4 && x != y && |head + x + tail| >= 4
    requires Passes(head + x + tail)
    ensures !Passes(head + y + tail)
  {
    hide Passes, Run, BitSteps;
    CheckIsResidue(head + x + tail);
    CheckIsResidue(head + y + tail);
    if Passes(head + y + tail) {
      BurstChangesRegister(ONES, head, x, y, tail);
    }
  }
}
