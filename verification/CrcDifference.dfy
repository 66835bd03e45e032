/** How a difference between two messages shows in their CRCs, in bit strings and in machine words. */
module CrcDifference {
  import opened Bytes
  import opened Bits
  import opened Crc16
  import opened CrcLoop

  // --- The loop on words, several bits at once ---------------------------------------------------

  /** x^16 times the up to four bits of x, modulo the generator. */
  function Reduce(x: bv16): bv16 {
    (x << 12) ^ (x << 5) ^ x
  }

  function OneBit(c: bv16): bv16 {
    (c << 1) ^ Reduce(c >> 15)
  }

  function TwoBits(c: bv16): bv16 {
    (c << 2) ^ Reduce(c >> 14)
  }

  function FourBits(c: bv16): bv16 {
    (c << 4) ^ Reduce(c >> 12)
  }

  function SixteenBits(c: bv16): bv16 {
    FourBits(FourBits(FourBits(FourBits(c))))
  }

  lemma OneIsLoopStep(c: bv16)
    ensures OneBit(c) == LoopStep(c)
  {
    if c & 0x8000 != 0 {
      assert c >> 15 == 1;
    } else {
      assert c >> 15 == 0;
    }
  }

  lemma TwoIsOnes(c: bv16)
    ensures TwoBits(c) == OneBit(OneBit(c))
  {
  }

  lemma FourIsTwos(c: bv16)
    ensures FourBits(c) == TwoBits(TwoBits(c))
  {
  }

  lemma OneShift(c: bv16)
    ensures Load(OneBit(c)) == Shifts(Load(c), 1)
  {
    hide OneBit, LoopStep, Load, BitIn;
    OneIsLoopStep(c);
    LoadStep(c);
    ShiftsSnoc(Load(c), 0);
  }

  lemma TwoShifts(c: bv16)
    ensures Load(TwoBits(c)) == Shifts(Load(c), 2)
  {
    hide OneBit, TwoBits, Load, Shifts;
    TwoIsOnes(c);
    OneShift(c);
    OneShift(OneBit(c));
    ShiftsAdd(Load(c), 1, 1);
  }

  lemma FourShifts(c: bv16)
    ensures Load(FourBits(c)) == Shifts(Load(c), 4)
  {
    hide TwoBits, FourBits, Load, Shifts;
    FourIsTwos(c);
    TwoShifts(c);
    TwoShifts(TwoBits(c));
    ShiftsAdd(Load(c), 2, 2);
  }

  lemma SixteenShifts(c: bv16)
    ensures Load(SixteenBits(c)) == Shifts(Load(c), 16)
  {
    hide FourBits, Load, Shifts;
    var d := FourBits(c);
    FourShifts(c);
    FourShifts(d);
    FourShifts(FourBits(d));
    FourShifts(FourBits(FourBits(d)));
    ShiftsAdd(Load(c), 4, 4);
    ShiftsAdd(Load(c), 8, 4);
    ShiftsAdd(Load(c), 12, 4);
  }

  lemma {:induction false} ShiftsAdd(r: Register, m: nat, n: nat)
    ensures Shifts(Shifts(r, m), n) == Shifts(r, m + n)
    decreases m
  {
    if m > 0 {
      ShiftsAdd(BitIn(r, false), m - 1, n);
    }
  }

  /** What 16 message bits make of a clear register, as words. */
  lemma RunWord(m: BitString)
    requires |m| == 16
    ensures Spell(Msb(Run(CLEAR, m))) == SixteenBits(Spell(m))
  {
    hide Run, Shifts, Load, Spell, SixteenBits, XorTop, Msb;
    RunIsShifts(CLEAR, m);
    TopIsLoad(m);
    SixteenShifts(Spell(m));
    SpellMsb(SixteenBits(Spell(m)));
  }

  lemma TopIsLoad(m: BitString)
    requires |m| == 16
    ensures XorTop(CLEAR, m) == Load(Spell(m))
  {
    hide Spell, Has, Mask;
    forall k | 0 <= k < 16 ensures XorTop(CLEAR, m)[k] == Load(Spell(m))[k] {
      SpellBit(m, k);
    }
  }

  // --- Swapping the two bytes of a word ----------------------------------------------------------

  function Swap(c: bv16): bv16 {
    (c << 8) ^ (c >> 8)
  }

  function Swapped(s: BitString): (t: BitString)
    requires |s| == 16
    ensures |t| == 16
  {
    s[8..] + s[..8]
  }

  lemma SwapLow(c: bv16, m: bv16)
    requires m < 0x100
    ensures Has(Swap(c), m) <==> Has(c, m << 8)
    ensures Has(Swap(c), m << 8) <==> Has(c, m)
  {
  }

  lemma MaskUp(k: nat)
    requires k < 8
    ensures Mask(k) < 0x100 && Mask(k + 8) == Mask(k) << 8
  {
  }

  lemma SwapBit(s: BitString, k: nat)
    requires |s| == 16 && k < 8
    ensures Has(Spell(Swapped(s)), Mask(k)) <==> Has(Swap(Spell(s)), Mask(k))
    ensures Has(Spell(Swapped(s)), Mask(k + 8)) <==> Has(Swap(Spell(s)), Mask(k + 8))
  {
    hide Spell, Has, Mask, Swap;
    SpellBit(Swapped(s), k);
    SpellBit(Swapped(s), k + 8);
    SpellBit(s, k);
    SpellBit(s, k + 8);
    MaskUp(k);
    SwapLow(Spell(s), Mask(k));
  }

  lemma SwapSpelled(s: BitString)
    requires |s| == 16
    ensures Spell(Swapped(s)) == Swap(Spell(s))
  {
    hide Spell, Has, Mask, Swap, Swapped;
    var x, y := Load(Spell(Swapped(s))), Load(Swap(Spell(s)));
    forall k | 0 <= k < 16 ensures x[k] == y[k] {
      SwapBit(s, k % 8);
    }
    LoadInjective(Spell(Swapped(s)), Swap(Spell(s)));
  }

  // --- Spelling differences ----------------------------------------------------------------------------

  function Clear(n: nat): (s: BitString)
    ensures |s| == n
  {
    seq(n, _ => false)
  }

  lemma XorBitsAt(s: BitString, t: BitString, i: nat)
    requires i < |s| == |t|
    ensures XorBits(s, t)[i] == (s[i] != t[i])
  {
  }

  lemma SpellXorBit(s: BitString, t: BitString, k: nat)
    requires |s| == |t| <= 16 && k < 16
    ensures Has(Spell(XorBits(s, t)), Mask(k)) <==> Has(Xor(Spell(s), Spell(t)), Mask(k))
  {
    hide Spell, Has, Mask, Xor, XorBits, SingleBit;
    MaskSingle(k);
    XorBit(Spell(s), Spell(t), Mask(k));
    SpellBit(s, k);
    SpellBit(t, k);
    SpellBit(XorBits(s, t), k);
    if k < |s| {
      XorBitsAt(s, t, |s| - 1 - k);
    }
  }

  lemma SpellXor(s: BitString, t: BitString)
    requires |s| == |t| <= 16
    ensures Spell(XorBits(s, t)) == Xor(Spell(s), Spell(t))
  {
    hide Spell, Has, Mask, Xor, XorBits;
    var x, y := Load(Spell(XorBits(s, t))), Load(Xor(Spell(s), Spell(t)));
    forall k | 0 <= k < 16 ensures x[k] == y[k] {
      SpellXorBit(s, t, k);
    }
    LoadInjective(Spell(XorBits(s, t)), Xor(Spell(s), Spell(t)));
  }

  lemma {:induction false} SpellClear(n: nat)
    requires n <= 16
    ensures Spell(Clear(n)) == 0
  {
    if n > 0 {
      SpellClear(n - 1);
      assert Clear(n)[..n - 1] == Clear(n - 1);
    }
  }

  lemma SpellLeading(n: nat, s: BitString)
    requires n + |s| <= 16
    ensures Spell(Clear(n) + s) == Spell(s)
    decreases |s|
  {
    hide Append;
    if s == [] {
      SpellClear(n);
      assert Clear(n) + s == Clear(n);
    } else {
      var k := |s| - 1;
      SpellLeading(n, s[..k]);
      assert (Clear(n) + s)[..n + k] == Clear(n) + s[..k];
    }
  }

  lemma SpellPair(s: BitString, t: BitString)
    requires |s| == |t| == 8
    ensures Spell(s + t) == (Spell(s) << 8) ^ Spell(t)
  {
    hide Spell, Shifted;
    assert XorBits(s + Clear(8), Clear(8) + t) == s + t;
    SpellXor(s + Clear(8), Clear(8) + t);
    SpellPadded(s, 8);
    ShiftedByte(Spell(s));
    SpellLeading(8, t);
  }

  lemma SpellInjective(s: BitString, t: BitString)
    requires |s| == |t| == 16 && Spell(s) == Spell(t)
    ensures s == t
  {
    hide Spell, Load, Msb;
    MsbSpell(s);
    MsbSpell(t);
  }

  lemma FewBits(s: BitString, f: nat)
    requires |s| == 16 && f < 16 && s[..16 - f] == Clear(16 - f)
    ensures Spell(s) < Mask(f)
  {
    hide Spell, Mask;
    SpellBound(s[16 - f..]);
    SpellLeading(16 - f, s[16 - f..]);
    assert s == Clear(16 - f) + s[16 - f..];
  }

  /** The bits of c below the one that m selects. */
  function Low(c: bv16, m: bv16): bv16 {
    c & (m - 1)
  }

  lemma DoubleLow(c: bv16, m: bv16)
    requires SingleBit(m) && Double(m) != 0 && Low(c, m) == 0
    ensures Low(Double(c), Double(m)) == 0
  {
  }

  lemma {:induction false} ShiftedLow(c: bv16, f: nat)
    requires f < 16
    ensures Low(Shifted(c, f), Mask(f)) == 0
    decreases f
  {
    hide Double, SingleBit;
    if f == 0 {
      assert Mask(0) == 1;
    } else {
      ShiftedLow(c, f - 1);
      MaskSingle(f - 1);
      MaskDouble(f);
      hide Mask;
      DoubleLow(Shifted(c, f - 1), Mask(f - 1));
    }
  }

  lemma LowBitsClear(s: BitString, f: nat)
    requires |s| == 16 && f < 16 && s[16 - f..] == Clear(f)
    ensures Low(Spell(s), Mask(f)) == 0
  {
    hide Spell, Mask, Shifted;
    var q := s[..16 - f];
    SpellPadded(q, f);
    assert s == q + seq(f, _ => false);
    ShiftedLow(Spell(q), f);
  }

  lemma DoubleGrows(m: bv16)
    requires SingleBit(m) && Double(m) != 0
    ensures m < Double(m)
  {
  }

  lemma {:induction false} MasksIncrease(i: nat, j: nat)
    requires i <= j < 16
    ensures Mask(i) <= Mask(j)
    ensures i < j ==> Mask(i) < Mask(j)
    decreases j
  {
    hide Mask, Double, SingleBit;
    if i < j {
      MasksIncrease(i, j - 1);
      MaskSingle(j - 1);
      MaskDouble(j);
      DoubleGrows(Mask(j - 1));
    }
  }

  lemma SmallHasNo(c: bv16, m: bv16)
    requires SingleBit(m) && c < m
    ensures !Has(c, m)
  {
  }

  lemma LowHasNo(c: bv16, m: bv16, n: bv16)
    requires SingleBit(m) && SingleBit(n) && m < n && Low(c, n) == 0
    ensures !Has(c, m)
  {
  }

  /** The converse of FewBits. */
  lemma SmallSpelling(s: BitString, f: nat)
    requires |s| == 16 && f < 16 && Spell(s) < Mask(f)
    ensures s[..16 - f] == Clear(16 - f)
  {
    hide Spell, Mask, Has, SingleBit;
    forall i | 0 <= i < 16 - f ensures !s[i] {
      MasksIncrease(f, 15 - i);
      MaskSingle(15 - i);
      SmallHasNo(Spell(s), Mask(15 - i));
      SpellBit(s, 15 - i);
    }
  }

  /** The converse of LowBitsClear. */
  lemma HighSpelling(s: BitString, f: nat)
    requires |s| == 16 && f < 16 && Low(Spell(s), Mask(f)) == 0
    ensures s[16 - f..] == Clear(f)
  {
    hide Spell, Mask, Has, SingleBit;
    forall i | 16 - f <= i < 16 ensures !s[i] {
      LowBitOf(Spell(s), f, 15 - i);
      SpellBit(s, 15 - i);
    }
  }

  lemma LowBitOf(c: bv16, f: nat, k: nat)
    requires k < f < 16 && Low(c, Mask(f)) == 0
    ensures !Has(c, Mask(k))
  {
    hide Mask, Has, SingleBit;
    MasksIncrease(k, f);
    MaskSingle(k);
    MaskSingle(f);
    LowHasNo(c, Mask(k), Mask(f));
  }

  // --- Differences between messages ----------------------------------------------------------------------

  /** The bits in which two messages of one length differ. */
  function Diff(a: seq<Byte>, b: seq<Byte>): (d: BitString)
    requires |a| == |b|
    ensures |d| == 8 * |a|
  {
    XorBits(MessageBits(a), MessageBits(b))
  }

  lemma DiffConcat(a: seq<Byte>, b: seq<Byte>, c: seq<Byte>, d: seq<Byte>)
    requires |a| == |c| && |b| == |d|
    ensures Diff(a + b, c + d) == Diff(a, c) + Diff(b, d)
  {
    hide MessageBits;
    MessageBitsConcat(a, b);
    MessageBitsConcat(c, d);
  }

  lemma DiffSame(a: seq<Byte>)
    ensures Diff(a, a) == Clear(8 * |a|)
  {
    hide MessageBits;
  }

  lemma DiffClear(a: seq<Byte>, b: seq<Byte>)
    requires |a| == |b| && Diff(a, b) == Clear(8 * |a|)
    ensures a == b
  {
    hide MessageBits;
    var x, y := MessageBits(a), MessageBits(b);
    forall k | 0 <= k < |x| ensures x[k] == y[k] {
      assert Diff(a, b)[k] == Clear(8 * |a|)[k];
    }
    assert x == y;
    MessageBitsInjective(a, b);
  }

  /** The XOR of two bytes. */
  function XorByte(a: Byte, b: Byte): bv16 {
    Xor(a as bv16, b as bv16)
  }

  lemma OneByteDiff(a: Byte, b: Byte)
    ensures Spell(Diff([a], [b])) == XorByte(a, b)
  {
    ByteMessage(a);
    ByteMessage(b);
    hide ByteBits, Spell, MessageBits;
    SpellXor(ByteBits(a), ByteBits(b));
    ByteSpelled(a);
    ByteSpelled(b);
  }

  lemma ByteMessage(b: Byte)
    ensures MessageBits([b]) == ByteBits(b)
  {
    assert [b][..0] == [];
    assert MessageBits([b]) == [] + ByteBits(b);
  }

  lemma TwoByteDiff(a: seq<Byte>, b: seq<Byte>)
    requires |a| == |b| == 2
    ensures Spell(Diff(a, b)) == (XorByte(a[0], b[0]) << 8) ^ XorByte(a[1], b[1])
  {
    hide Spell, Diff, XorByte;
    assert a == [a[0]] + [a[1]] && b == [b[0]] + [b[1]];
    DiffConcat([a[0]], [a[1]], [b[0]], [b[1]]);
    OneByteDiff(a[0], b[0]);
    OneByteDiff(a[1], b[1]);
    SpellPair(Diff([a[0]], [b[0]]), Diff([a[1]], [b[1]]));
  }

  lemma RunDiff(a: seq<Byte>, b: seq<Byte>)
    requires |a| == |b|
    ensures RunBytes(INIT, b) == XorBits(RunBytes(INIT, a), Run(CLEAR, Diff(a, b)))
  {
    hide MessageBits, Run;
    var x := MessageBits(a);
    RunLinear(INIT, CLEAR, x, Diff(a, b));
    assert XorBits(INIT, CLEAR) == INIT;
    assert XorBits(x, Diff(a, b)) == MessageBits(b);
  }

  /** Messages whose difference is clear outside 16 consecutive bits differ within that window. */
  lemma DiffWindow(u: seq<Byte>, v: seq<Byte>, from: nat)
    requires |u| == |v| && from + 16 <= 8 * |u|
    requires Diff(u, v)[..from] == Clear(from)
    requires Diff(u, v)[from + 16..] == Clear(8 * |u| - from - 16)
    ensures DifferWithinWindow(u, v, from)
  {
    hide MessageBits;
    var x, y, d := MessageBits(u), MessageBits(v), Diff(u, v);
    forall k | 0 <= k < from ensures x[k] == y[k] {
      assert d[k] == d[..from][k];
    }
    forall k | from + 16 <= k < |x| ensures x[k] == y[k] {
      assert d[k] == d[from + 16..][k - from - 16];
    }
  }

  lemma WindowDiff(u: seq<Byte>, v: seq<Byte>, from: nat)
    requires DifferWithinWindow(u, v, from)
    ensures Diff(u, v)[..from] == Clear(from)
    ensures Diff(u, v)[from + 16..] == Clear(8 * |u| - from - 16)
  {
    hide MessageBits;
    var x, y := MessageBits(u), MessageBits(v);
    assert forall k | 0 <= k < from :: x[k] == x[..from][k] && y[k] == y[..from][k];
    assert forall k | from + 16 <= k < |x| ::
             x[k] == x[from + 16..][k - from - 16] && y[k] == y[from + 16..][k - from - 16];
  }

  lemma RunLeading(n: nat, d: BitString)
    ensures Run(CLEAR, Clear(n) + d) == Run(CLEAR, d)
  {
    hide Run;
    RunConcat(CLEAR, Clear(n), d);
    ZeroRun(Clear(n));
  }

  lemma SpelledClear(s: BitString)
    requires |s| == 16 && Spell(s) == 0
    ensures s == Clear(16)
  {
    hide Spell;
    SpellClear(16);
    SpellInjective(s, Clear(16));
  }

  lemma XorCancels(x: BitString, y: BitString, d: BitString)
    requires |x| == |y| == |d|
    ensures XorBits(x, y) == d <==> y == XorBits(x, d)
  {
    if XorBits(x, y) == d {
      assert forall k | 0 <= k < |x| :: d[k] == (x[k] != y[k]);
      assert y == XorBits(x, d);
    }
    if y == XorBits(x, d) {
      assert forall k | 0 <= k < |x| :: y[k] == (x[k] != d[k]);
      assert XorBits(x, y) == d;
    }
  }

  // --- XOR of bytes -----------------------------------------------------------------------------------

  lemma NoXor(a: Byte)
    ensures XorByte(a, a) == 0
  {
  }

  lemma SmallByte(b: Byte)
    ensures (b as bv16) < 0x100
  {
    hide Spell, ByteBits;
    ByteSpelled(b);
    SpellBound(ByteBits(b));
  }

  lemma SmallXor(c: bv16, d: bv16)
    requires c < 0x100 && d < 0x100
    ensures Xor(c, d) < 0x100
  {
  }

  lemma SmallDifference(a: Byte, b: Byte)
    ensures XorByte(a, b) < 0x100
  {
    SmallByte(a);
    SmallByte(b);
    SmallXor(a as bv16, b as bv16);
  }

  lemma SmallNumber(c: bv16)
    requires c < 0x100
    ensures c as int < 0x100
  {
  }

  lemma XorBack(a: bv16, c: bv16)
    ensures Xor(a, Xor(a, c)) == c
  {
  }

  lemma ByteOf(d: bv16) returns (b: Byte)
    requires d < 0x100
    ensures b as bv16 == d
  {
    SmallNumber(d);
    NumberRoundTrip(d);
    b := d as int;
  }

  /** The byte that differs from a by c. */
  lemma Flip(a: Byte, c: bv16) returns (b: Byte)
    requires c < 0x100
    ensures XorByte(a, b) == c
  {
    SmallByte(a);
    SmallXor(a as bv16, c);
    hide Xor;
    b := ByteOf(Xor(a as bv16, c));
    XorBack(a as bv16, c);
  }

  // --- The check value ----------------------------------------------------------------------------

  /** The loop over one message byte, given at the top of a word. */
  function Digit(c: bv16, top: bv16): bv16 {
    FourBits(FourBits(Xor(c, top)))
  }

  lemma DigitTaken(c: bv16, msg: seq<Byte>, b: Byte, top: bv16, d: bv16)
    requires Load(c) == RunBytes(INIT, msg) && ByteAtTop(b) == top && d == Digit(c, top)
    ensures Load(d) == RunBytes(INIT, msg + [b])
  {
    hide Load, FourBits, Shifts, Run, ByteAtTop, AtTop, ByteBits, Xor, XorTop;
    var e := Xor(c, top);
    ByteAtTopBits(b);
    LoadXorTop(c, ByteBits(b));
    FourShifts(e);
    FourShifts(FourBits(e));
    ShiftsAdd(Load(e), 4, 4);
    RunIsShifts(Load(c), ByteBits(b));
    RunBytesConcat(INIT, msg, [b]);
    ByteMessage(b);
  }

  lemma DigitValues()
    ensures Digit(0xFFFF, 0x3100) == 0xC782 && Digit(0xC782, 0x3200) == 0x3DBA && Digit(0x3DBA, 0x3300) == 0x5BCE
    ensures Digit(0x5BCE, 0x3400) == 0x5349 && Digit(0x5349, 0x3500) == 0x4560 && Digit(0x4560, 0x3600) == 0x2EF4
    ensures Digit(0x2EF4, 0x3700) == 0x7718 && Digit(0x7718, 0x3800) == 0xA12B && Digit(0xA12B, 0x3900) == 0x29B1
  {
  }

  lemma DigitBytes()
    ensures ByteAtTop(0x31) == 0x3100 && ByteAtTop(0x32) == 0x3200 && ByteAtTop(0x33) == 0x3300
    ensures ByteAtTop(0x34) == 0x3400 && ByteAtTop(0x35) == 0x3500 && ByteAtTop(0x36) == 0x3600
    ensures ByteAtTop(0x37) == 0x3700 && ByteAtTop(0x38) == 0x3800 && ByteAtTop(0x39) == 0x3900
  {
  }

  /** The catalogued check value: the CRC of the nine digits "123456789" is 0x29B1. */
  lemma CheckValue()
    ensures Crc([0x31, 0x32, 0x33, 0x34, 0x35, 0x36, 0x37, 0x38, 0x39]) == 0x29B1
  {
    var msg: seq<Byte> := [0x31, 0x32, 0x33, 0x34, 0x35, 0x36, 0x37, 0x38, 0x39];
    LoadInit();
    DigitValues();
    DigitBytes();
    WordValue(0x29B1);
    assert RunBytes(INIT, msg[..0]) == INIT;
    hide Load, RunBytes, Digit, ByteAtTop, Crc;
    var words := [0xFFFF as bv16, 0xC782, 0x3DBA, 0x5BCE, 0x5349, 0x4560, 0x2EF4, 0x7718, 0xA12B, 0x29B1];
    for i := 0 to 9
      invariant Load(words[i]) == RunBytes(INIT, msg[..i])
    {
      DigitTaken(words[i], msg[..i], msg[i], ByteAtTop(msg[i]), words[i + 1]);
      assert msg[..i + 1] == msg[..i] + [msg[i]];
    }
    assert msg[..9] == msg;
    CrcWord(msg, 0x29B1);
  }

  lemma CrcWord(msg: seq<Byte>, c: bv16)
    requires Load(c) == RunBytes(INIT, msg)
    ensures Crc(msg) == c as int
  {
    WordValue(c);
  }
}
