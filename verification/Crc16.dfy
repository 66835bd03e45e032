/**
 CRC-16/CCITT-FALSE: polynomial 0x1021, initial value 0xFFFF, no reflection, no final XOR.

 The register is specified as a polynomial of degree below 16 that takes in one message bit at a time;
 module CrcLoop refines it to the byte-wise loop over a 16-bit word that every component carries a copy of.
 */
module Crc16 {
  import opened Bytes
  import opened Bits
  import opened Gf2

  /** Entry k is bit k of the 16-bit word, the coefficient of x^k. */
  type Register = r: Poly | |r| == 16 witness seq(16, _ => false)

  const CLEAR: Register := Filled(false)
  const INIT: Register := Filled(true)

  function Filled(b: bool): (r: Register)
    ensures forall k | 0 <= k < 16 :: r[k] == b
  {
    seq(16, _ => b)
  }

  /** x^16 + x^12 + x^5 + 1. */
  const GENERATOR: Poly := [
    true, false, false, false, false, true, false, false, false,
    false, false, false, true, false, false, false, true
  ]

  function BitIn(r: Register, b: bool): (s: Register)
    ensures forall k | 0 <= k < 16 :: s[k] == ((k > 0 && r[k - 1]) != (r[15] != b && GENERATOR[k]))
  {
    seq(16, k requires 0 <= k < 16 => (k > 0 && r[k - 1]) != (r[15] != b && GENERATOR[k]))
  }

  function Run(r: Register, bits: BitString): Register {
    if bits == [] then r else BitIn(Run(r, bits[..|bits| - 1]), bits[|bits| - 1])
  }

  function RunBytes(r: Register, msg: seq<Byte>): Register {
    Run(r, MessageBits(msg))
  }

  /** The register from its most significant bit down. */
  function Msb(r: Register): (s: BitString)
    ensures |s| == 16
  {
    seq(16, i requires 0 <= i < 16 => r[15 - i])
  }

  function ToWord(r: Register): Word {
    ValueBound(Msb(r));
    Pow2Sixteen();
    Value(Msb(r))
  }

  function Crc(msg: seq<Byte>): Word {
    ToWord(RunBytes(INIT, msg))
  }

  // --- Carrying the register across concatenation ----------------------------------

  lemma {:induction false} RunConcat(r: Register, a: BitString, b: BitString)
    ensures Run(r, a + b) == Run(Run(r, a), b)
  {
    if b == [] {
      assert a + b == a;
    } else {
      var n := |b| - 1;
      RunConcat(r, a, b[..n]);
      assert (a + b)[..|a + b| - 1] == a + b[..n];
    }
  }

  lemma RunBytesConcat(r: Register, a: seq<Byte>, b: seq<Byte>)
    ensures RunBytes(r, a + b) == RunBytes(RunBytes(r, a), b)
  {
    MessageBitsConcat(a, b);
    RunConcat(r, MessageBits(a), MessageBits(b));
  }

  // --- Injectivity -------------------------------------------------------------------

  lemma BitInInjective(r: Register, s: Register, b: bool)
    requires BitIn(r, b) == BitIn(s, b)
    ensures r == s
  {
    assert BitIn(r, b)[0] == (r[15] != b) && BitIn(s, b)[0] == (s[15] != b);
    forall k | 0 <= k < 15 ensures r[k] == s[k] {
      assert BitIn(r, b)[k + 1] == BitIn(s, b)[k + 1];
    }
  }

  /** Registers that differ stay different over any common suffix. */
  lemma {:induction false} RunInjective(r: Register, s: Register, bits: BitString)
    requires Run(r, bits) == Run(s, bits)
    ensures r == s
  {
    if bits != [] {
      var n := |bits| - 1;
      BitInInjective(Run(r, bits[..n]), Run(s, bits[..n]), bits[n]);
      RunInjective(r, s, bits[..n]);
    }
  }

  lemma ToWordInjective(r: Register, s: Register)
    requires ToWord(r) == ToWord(s)
    ensures r == s
  {
    BitsOfValue(Msb(r));
    BitsOfValue(Msb(s));
    forall k | 0 <= k < 16 ensures r[k] == s[k] {
      assert r[k] == Msb(r)[15 - k] && s[k] == Msb(s)[15 - k];
    }
  }

  // --- Linearity ---------------------------------------------------------------------

  function XorBits(a: BitString, b: BitString): (s: BitString)
    requires |a| == |b|
    ensures |s| == |a|
  {
    seq(|a|, k requires 0 <= k < |a| => a[k] != b[k])
  }

  lemma BitInLinear(r: Register, d: Register, a: bool, b: bool)
    ensures BitIn(XorBits(r, d), a != b) == XorBits(BitIn(r, a), BitIn(d, b))
  {
    hide GENERATOR;
    var s, x, y := BitIn(XorBits(r, d), a != b), BitIn(r, a), BitIn(d, b);
    forall k | 0 <= k < 16 ensures s[k] == (x[k] != y[k]) {
    }
  }

  /** The register is linear in its initial value and the message: XOR the inputs and the results are XORed. */
  lemma {:induction false} RunLinear(r: Register, d: Register, a: BitString, b: BitString)
    requires |a| == |b|
    ensures Run(XorBits(r, d), XorBits(a, b)) == XorBits(Run(r, a), Run(d, b))
  {
    if a != [] {
      hide BitIn;
      var n := |a| - 1;
      RunLinear(r, d, a[..n], b[..n]);
      assert XorBits(a, b)[..n] == XorBits(a[..n], b[..n]);
      BitInLinear(Run(r, a[..n]), Run(d, b[..n]), a[n], b[n]);
    }
  }

  // --- A window of up to 16 bits: inject it at the top, then shift ------------------

  function XorTop(r: Register, w: BitString): Register
    requires |w| <= 16
  {
    seq(16, k requires 0 <= k < 16 => r[k] != (15 - k < |w| && w[15 - k]))
  }

  function Shifts(r: Register, n: nat): Register
    decreases n
  {
    if n == 0 then r else Shifts(BitIn(r, false), n - 1)
  }

  lemma {:induction false} ShiftsSnoc(r: Register, n: nat)
    ensures Shifts(r, n + 1) == BitIn(Shifts(r, n), false)
    decreases n
  {
    if n > 0 {
      ShiftsSnoc(BitIn(r, false), n - 1);
    }
  }

  lemma {:induction false} ShiftsInjective(r: Register, s: Register, n: nat)
    requires Shifts(r, n) == Shifts(s, n)
    ensures r == s
    decreases n
  {
    if n > 0 {
      ShiftsInjective(BitIn(r, false), BitIn(s, false), n - 1);
      BitInInjective(r, s, false);
    }
  }

  lemma {:induction false} ShiftsClear(n: nat)
    ensures Shifts(CLEAR, n) == CLEAR
  {
    if n > 0 {
      assert BitIn(CLEAR, false) == CLEAR;
      ShiftsClear(n - 1);
    }
  }

  lemma ShiftXorTop(r: Register, w: BitString)
    requires 0 < |w| <= 16
    ensures BitIn(XorTop(r, w), false) == XorTop(BitIn(r, w[0]), w[1..])
  {
    assert XorTop(r, w)[15] == (r[15] != w[0]);
  }

  /** Taking in up to 16 bits one at a time is the same as XORing them in at the top and shifting. */
  lemma {:induction false} RunIsShifts(r: Register, w: BitString)
    requires |w| <= 16
    ensures Run(r, w) == Shifts(XorTop(r, w), |w|)
    decreases |w|
  {
    if w == [] {
      assert XorTop(r, w) == r;
    } else {
      RunIsShifts(BitIn(r, w[0]), w[1..]);
      ShiftXorTop(r, w);
      RunConcat(r, [w[0]], w[1..]);
      assert w == [w[0]] + w[1..];
      assert Run(r, [w[0]]) == BitIn(r, w[0]);
    }
  }

  /** Two different windows of at most 16 bits never lead from one register to the same register. */
  lemma WindowInjective(r: Register, v: BitString, w: BitString)
    requires |v| == |w| <= 16
    requires Run(r, v) == Run(r, w)
    ensures v == w
  {
    RunIsShifts(r, v);
    RunIsShifts(r, w);
    ShiftsInjective(XorTop(r, v), XorTop(r, w), |v|);
    forall i | 0 <= i < |v| ensures v[i] == w[i] {
      assert XorTop(r, v)[15 - i] == XorTop(r, w)[15 - i];
    }
  }

  // --- Zero residue and zero padding ---------------------------------------------------

  lemma OwnBitsClear(r: Register)
    ensures Run(r, Msb(r)) == CLEAR
  {
    RunIsShifts(r, Msb(r));
    assert XorTop(r, Msb(r)) == CLEAR;
    ShiftsClear(16);
  }

  lemma TrailerBits(r: Register)
    ensures MessageBits(Be16(ToWord(r))) == Msb(r)
  {
    var w := ToWord(r);
    BitsOfValue(Msb(r));
    WordBits(w);
    TwoByteBits(w / 0x100, w % 0x100);
  }

  lemma TwoByteBits(h: Byte, l: Byte)
    ensures MessageBits([h, l]) == ByteBits(h) + ByteBits(l)
  {
    assert [h, l][..1] == [h] && [h][..0] == [];
    assert MessageBits([h]) == [] + ByteBits(h);
  }

  lemma ToWordClear()
    ensures ToWord(CLEAR) == 0
  {
    Pow2Sixteen();
    BitsOfZero(16);
    assert Msb(CLEAR) == BitsOf(0, 16);
    ValueBitsOf(0, 16);
  }

  lemma {:induction false} BitsOfZero(k: nat)
    ensures BitsOf(0, k) == seq(k, _ => false)
  {
    if k > 0 {
      BitsOfZero(k - 1);
    }
  }

  /** A message followed by two bytes has CRC zero exactly when they are the message's own CRC, big-endian. */
  lemma ZeroResidue(msg: seq<Byte>, h: Byte, l: Byte)
    ensures Crc(msg + [h, l]) == 0 <==> [h, l] == Be16(Crc(msg))
  {
    var r := RunBytes(INIT, msg);
    RunBytesConcat(INIT, msg, [h, l]);
    ToWordClear();
    OwnBitsClear(r);
    TrailerBits(r);
    if Crc(msg + [h, l]) == 0 {
      ToWordInjective(RunBytes(r, [h, l]), CLEAR);
      WindowInjective(r, MessageBits([h, l]), Msb(r));
      MessageBitsInjective([h, l], Be16(ToWord(r)));
    }
  }

  lemma {:induction false} ZeroRun(bits: BitString)
    requires forall k | 0 <= k < |bits| :: !bits[k]
    ensures Run(CLEAR, bits) == CLEAR
  {
    if bits != [] {
      ZeroRun(bits[..|bits| - 1]);
      assert BitIn(CLEAR, false) == CLEAR;
    }
  }

  lemma {:induction false} ZeroBits(n: nat)
    ensures forall k | 0 <= k < 8 * n :: !MessageBits(Zeros(n))[k]
  {
    if n > 0 {
      ZeroBits(n - 1);
      assert Zeros(n)[..n - 1] == Zeros(n - 1);
      BitsOfZero(8);
    }
  }

  /** Zero bytes appended to a message that already carries its CRC keep the CRC at zero. */
  lemma PaddedResidue(msg: seq<Byte>, n: nat)
    ensures Crc(msg + Be16(Crc(msg)) + Zeros(n)) == 0
  {
    var m := msg + Be16(Crc(msg));
    ZeroResidue(msg, Crc(msg) / 0x100, Crc(msg) % 0x100);
    RunBytesConcat(INIT, m, Zeros(n));
    ToWordClear();
    ToWordInjective(RunBytes(INIT, m), CLEAR);
    ZeroBits(n);
    ZeroRun(MessageBits(Zeros(n)));
  }

  // --- Burst detection ---------------------------------------------------------------------

  /** The messages have equal length and agree on every bit outside 16 consecutive positions. */
  ghost predicate DifferWithinWindow(a: seq<Byte>, b: seq<Byte>, from: nat) {
    && |a| == |b|
    && from + 16 <= 8 * |a|
    && MessageBits(a)[..from] == MessageBits(b)[..from]
    && MessageBits(a)[from + 16..] == MessageBits(b)[from + 16..]
  }

  /** Any change confined to 16 consecutive bits changes the CRC, whatever the message length. */
  lemma BurstDetected(a: seq<Byte>, b: seq<Byte>, from: nat)
    requires DifferWithinWindow(a, b, from) && a != b
    ensures Crc(a) != Crc(b)
  {
    var x, y := MessageBits(a), MessageBits(b);
    var v, w := x[from..from + 16], y[from..from + 16];
    if Crc(a) == Crc(b) {
      ToWordInjective(Run(INIT, x), Run(INIT, y));
      var r := Run(INIT, x[..from]);
      SplitRun(INIT, x, from);
      SplitRun(INIT, y, from);
      RunInjective(Run(r, v), Run(r, w), x[from + 16..]);
      WindowInjective(r, v, w);
      assert x == x[..from] + v + x[from + 16..] && y == y[..from] + w + y[from + 16..];
      MessageBitsInjective(a, b);
    }
  }

  lemma SplitRun(r: Register, x: BitString, from: nat)
    requires from + 16 <= |x|
    ensures Run(r, x) == Run(Run(Run(r, x[..from]), x[from..from + 16]), x[from + 16..])
  {
    assert x == x[..from] + x[from..from + 16] + x[from + 16..];
    RunConcat(r, x[..from] + x[from..from + 16], x[from + 16..]);
    RunConcat(r, x[..from], x[from..from + 16]);
  }

  // --- The register is the remainder of polynomial division ---------------------------

  /**
   The message polynomial times x^16 (the first bit is the highest power), with r added to its 16 highest
   coefficients. For r = INIT those coefficients are complemented.
   */
  function Dividend(bits: BitString, r: Register): (d: Poly)
    ensures |d| == |bits| + 16
  {
    var n := |bits|;
    seq(n + 16, k requires 0 <= k < n + 16 => (k >= 16 && bits[n + 15 - k]) != (k >= n && r[k - n]))
  }

  lemma DividendCoeff(bits: BitString, r: Register, k: nat)
    requires k < |bits| + 16
    ensures Dividend(bits, r)[k] == ((k >= 16 && bits[|bits| + 15 - k]) != (k >= |bits| && r[k - |bits|]))
  {
  }

  /** One more message bit multiplies the dividend by x and adds x^16 times the bit. */
  lemma DividendSnoc(bits: BitString, b: bool, r: Register, k: nat)
    ensures Coeff(Dividend(bits + [b], r), k) == (Coeff(Up(Dividend(bits, r)), k) != (k == 16 && b))
  {
    hide Dividend;
    if k <= |bits| + 16 {
      DividendCoeff(bits + [b], r, k);
    }
    if 0 < k <= |bits| + 16 {
      DividendCoeff(bits, r, k - 1);
    }
  }

  /** Multiplying the register by x and adding x^16 times the bit, less the generator if the degree reaches 16. */
  lemma BitInReduces(r: Register, b: bool, k: nat)
    ensures Coeff(BitIn(r, b), k)
            == ((Coeff(Up(r), k) != (k == 16 && b)) != Coeff(Scale(r[15] != b, GENERATOR), k))
  {
    assert GENERATOR[16];
  }

  lemma {:induction false} RunDivides(bits: BitString, r: Register) returns (q: Poly)
    ensures Same(Dividend(bits, r), Add(Mul(q, GENERATOR), Run(r, bits)))
  {
    if bits == [] {
      q := [];
      assert Dividend(bits, r) == r;
    } else {
      var n := |bits| - 1;
      var c := Run(r, bits[..n]);
      var p := RunDivides(bits[..n], r);
      var t := c[15] != bits[n];
      q := [t] + p;
      assert bits == bits[..n] + [bits[n]] && q[1..] == p;
      forall k: nat ensures Coeff(Dividend(bits, r), k) == Coeff(Add(Mul(q, GENERATOR), Run(r, bits)), k) {
        hide Dividend, BitIn, Mul, GENERATOR;
        DividendSnoc(bits[..n], bits[n], r, k);
        BitInReduces(c, bits[n], k);
        MulCoeff(q, GENERATOR, k);
        if k > 0 {
          assert Coeff(Dividend(bits[..n], r), k - 1) == Coeff(Add(Mul(p, GENERATOR), c), k - 1);
        }
      }
    }
  }

  /** The 16 coefficients of a word, bit k for x^k. */
  function Coefficients(w: Word): (r: Register) {
    seq(16, k requires 0 <= k < 16 => BitsOf(w, 16)[15 - k])
  }

  lemma CoefficientsToWord(r: Register)
    ensures Coefficients(ToWord(r)) == r
  {
    BitsOfValue(Msb(r));
  }

  lemma ToWordCoefficients(w: Word)
    ensures ToWord(Coefficients(w)) == w
  {
    assert Msb(Coefficients(w)) == BitsOf(w, 16);
    Pow2Sixteen();
    ValueBitsOf(w, 16);
  }

  /**
   The CRC of a message is the remainder, modulo x^16 + x^12 + x^5 + 1, of the message times x^16 with its
   first 16 coefficients complemented; and it is the only word that is.
   */
  lemma CrcIsRemainder(msg: seq<Byte>, w: Word)
    ensures w == Crc(msg) <==> Congruent(Dividend(MessageBits(msg), INIT), GENERATOR, Coefficients(w))
  {
    var d, r := Dividend(MessageBits(msg), INIT), RunBytes(INIT, msg);
    var q := RunDivides(MessageBits(msg), INIT);
    CoefficientsToWord(r);
    assert Congruent(d, GENERATOR, r);
    if Congruent(d, GENERATOR, Coefficients(w)) {
      RemainderUnique(d, GENERATOR, 16, r, Coefficients(w));
      ToWordCoefficients(w);
    }
  }
}
