/** The CRC loop over a 16-bit machine word, shown equal to the polynomial register of Crc16. */
module CrcLoop {
  import opened Bytes
  import opened Bits
  import opened Crc16

  /** The mask that selects bit k. */
  function Mask(k: nat): bv16
    requires k < 16
  {
    [ 0x0001, 0x0002, 0x0004, 0x0008, 0x0010, 0x0020, 0x0040, 0x0080,
      0x0100, 0x0200, 0x0400, 0x0800, 0x1000, 0x2000, 0x4000, 0x8000 ][k]
  }

  predicate Has(c: bv16, m: bv16) {
    c & m != 0
  }

  predicate SingleBit(m: bv16) {
    m != 0 && m & (m - 1) == 0
  }

  /** The bits of a 16-bit machine word. */
  function Load(c: bv16): (r: Register)
    ensures forall k | 0 <= k < 16 :: r[k] == Has(c, Mask(k))
  {
    seq(16, k requires 0 <= k < 16 => Has(c, Mask(k)))
  }

  /** The word that a bit string of at most 16 bits spells. */
  function Spell(s: BitString): bv16
    requires |s| <= 16
  {
    if s == [] then 0 else Append(Spell(s[..|s| - 1]), s[|s| - 1])
  }

  function Append(c: bv16, b: bool): bv16 {
    Xor(Double(c), if b then 1 else 0)
  }

  /** A bit string of at most 16 bits, moved to the top of a machine word. */
  function AtTop(s: BitString): bv16
    requires |s| <= 16
  {
    Spell(s + seq(16 - |s|, _ => false))
  }

  function Xor(c: bv16, d: bv16): bv16 {
    c ^ d
  }

  function Double(c: bv16): bv16 {
    c << 1
  }

  function LoopStep(c: bv16): bv16 {
    if Has(c, 0x8000) then Xor(Double(c), 0x1021) else Double(c)
  }

  lemma MaskSingle(k: nat)
    requires k < 16
    ensures SingleBit(Mask(k))
  {
  }

  lemma MaskDouble(k: nat)
    requires 0 < k < 16
    ensures Mask(k) == Double(Mask(k - 1)) && Double(Mask(k - 1)) != 0
  {
  }

  lemma MaskPoly(k: nat)
    requires k < 16
    ensures Has(0x1021, Mask(k)) <==> GENERATOR[k]
  {
  }

  lemma XorMasked(c: bv16, d: bv16, m: bv16)
    requires m & (m - 1) == 0
    ensures (c ^ d) & m == 0 <==> c & m == d & m
  {
  }

  lemma SingleMasked(c: bv16, m: bv16)
    requires m & (m - 1) == 0
    ensures c & m == 0 || c & m == m
  {
  }

  lemma XorBit(c: bv16, d: bv16, m: bv16)
    requires SingleBit(m)
    ensures Has(Xor(c, d), m) <==> Has(c, m) != Has(d, m)
  {
    XorMasked(c, d, m);
    SingleMasked(c, m);
    SingleMasked(d, m);
  }

  lemma DoubleBit(c: bv16, m: bv16)
    requires SingleBit(m) && Double(m) != 0
    ensures Has(Double(c), Double(m)) <==> Has(c, m)
  {
  }

  lemma DoubleLowBit(c: bv16)
    ensures !Has(Double(c), 1)
  {
  }

  lemma EmptyWord(m: bv16)
    ensures !Has(0, m)
  {
  }

  lemma LoopStepBit(c: bv16, k: nat)
    requires k < 16
    ensures Has(LoopStep(c), Mask(k))
            <==> (k > 0 && Has(c, Mask(k - 1))) != (Has(c, Mask(15)) && GENERATOR[k])
  {
    assert Mask(15) == 0x8000 && Mask(0) == 1;
    MaskSingle(k);
    MaskPoly(k);
    if k > 0 {
      MaskSingle(k - 1);
      MaskDouble(k);
    }
    hide Double, Xor, Has, Mask, SingleBit, GENERATOR;
    XorBit(Double(c), 0x1021, Mask(k));
    if k > 0 {
      DoubleBit(c, Mask(k - 1));
    } else {
      DoubleLowBit(c);
    }
  }

  lemma LoadStep(c: bv16)
    ensures Load(LoopStep(c)) == BitIn(Load(c), false)
  {
    hide LoopStep, Mask, Has;
    forall k | 0 <= k < 16 ensures Load(LoopStep(c))[k] == BitIn(Load(c), false)[k] {
      LoopStepBit(c, k);
    }
  }

  lemma AppendBit(c: bv16, b: bool, k: nat)
    requires k < 16
    ensures Has(Append(c, b), Mask(k)) <==> if k == 0 then b else Has(c, Mask(k - 1))
  {
    assert Mask(0) == 1;
    MaskSingle(k);
    if k > 0 {
      MaskSingle(k - 1);
      MaskDouble(k);
    }
    hide Double, Xor, Has, Mask, SingleBit;
    XorBit(Double(c), if b then 1 else 0, Mask(k));
    LowMask(k, b);
    if k > 0 {
      DoubleBit(c, Mask(k - 1));
    } else {
      DoubleLowBit(c);
    }
  }

  lemma LowMask(k: nat, b: bool)
    requires k < 16
    ensures Has(if b then 1 else 0, Mask(k)) <==> b && k == 0
  {
  }

  lemma {:induction false} SpellBit(s: BitString, k: nat)
    requires |s| <= 16 && k < 16
    ensures Has(Spell(s), Mask(k)) <==> k < |s| && s[|s| - 1 - k]
    decreases |s|
  {
    hide Has, Mask, Append;
    if s == [] {
      EmptyWord(Mask(k));
    } else {
      var n := |s| - 1;
      AppendBit(Spell(s[..n]), s[n], k);
      if k > 0 {
        SpellBit(s[..n], k - 1);
      }
    }
  }

  lemma AtTopBit(s: BitString, k: nat)
    requires |s| <= 16 && k < 16
    ensures Has(AtTop(s), Mask(k)) <==> 15 - k < |s| && s[15 - k]
  {
    hide Has, Mask, Spell;
    SpellBit(s + seq(16 - |s|, _ => false), k);
  }

  lemma XorTopBit(c: bv16, s: BitString, k: nat)
    requires |s| <= 16 && k < 16
    ensures Has(Xor(c, AtTop(s)), Mask(k)) <==> Has(c, Mask(k)) != (15 - k < |s| && s[15 - k])
  {
    hide Xor, AtTop, Mask, Has, SingleBit;
    AtTopBit(s, k);
    MaskSingle(k);
    XorBit(c, AtTop(s), Mask(k));
  }

  lemma LoadXorTop(c: bv16, s: BitString)
    requires |s| <= 16
    ensures Load(Xor(c, AtTop(s))) == XorTop(Load(c), s)
  {
    hide Xor, AtTop, Mask, Has;
    forall k | 0 <= k < 16 ensures Load(Xor(c, AtTop(s)))[k] == XorTop(Load(c), s)[k] {
      XorTopBit(c, s, k);
    }
  }

  lemma AllOnes(m: bv16)
    requires SingleBit(m)
    ensures Has(0xFFFF, m)
  {
  }

  lemma LoadInit()
    ensures Load(0xFFFF) == INIT
  {
    hide Mask, Has, SingleBit;
    forall k | 0 <= k < 16 ensures Load(0xFFFF)[k] == INIT[k] {
      MaskSingle(k);
      AllOnes(Mask(k));
    }
  }

  // --- Words as bit strings and as numbers ---------------------------------------------------

  function Masked(c: bv16, m: bv16): bv16 {
    c & m
  }

  lemma SameBit(c: bv16, d: bv16, m: bv16)
    requires SingleBit(m) && (Has(c, m) <==> Has(d, m))
    ensures Masked(c, m) == Masked(d, m)
  {
    SingleMasked(c, m);
    SingleMasked(d, m);
  }

  /** The bits up to the one the mask selects. */
  function Upto(c: bv16, m: bv16): bv16 {
    c & (m | (m - 1))
  }

  lemma UptoNext(c: bv16, d: bv16, m: bv16)
    requires SingleBit(m) && Double(m) != 0
    requires Upto(c, m) == Upto(d, m) && Masked(c, Double(m)) == Masked(d, Double(m))
    ensures Upto(c, Double(m)) == Upto(d, Double(m))
  {
  }

  lemma UptoFirst(c: bv16, d: bv16)
    requires Masked(c, Mask(0)) == Masked(d, Mask(0))
    ensures Upto(c, Mask(0)) == Upto(d, Mask(0))
  {
    assert Mask(0) == 1;
  }

  lemma {:induction false} UptoSame(c: bv16, d: bv16, k: nat)
    requires k < 16 && Load(c) == Load(d)
    ensures Upto(c, Mask(k)) == Upto(d, Mask(k))
    decreases k
  {
    hide Mask, Masked, Upto, Double, SingleBit, Has;
    MaskSingle(k);
    assert Load(c)[k] == Load(d)[k];
    SameBit(c, d, Mask(k));
    if k == 0 {
      UptoFirst(c, d);
    } else {
      UptoSame(c, d, k - 1);
      MaskSingle(k - 1);
      MaskDouble(k);
      UptoNext(c, d, Mask(k - 1));
    }
  }

  lemma LoadInjective(c: bv16, d: bv16)
    requires Load(c) == Load(d)
    ensures c == d
  {
    hide Load;
    UptoSame(c, d, 15);
    assert Mask(15) == 0x8000;
  }

  /** Spelling and reading a word are inverse to each other. */
  lemma SpellMsb(c: bv16)
    ensures Spell(Msb(Load(c))) == c
  {
    MsbSpell(Msb(Load(c)));
    hide Spell, Has, Mask;
    MsbInjective(Load(Spell(Msb(Load(c)))), Load(c));
    LoadInjective(Spell(Msb(Load(c))), c);
  }

  lemma MsbSpell(s: BitString)
    requires |s| == 16
    ensures Msb(Load(Spell(s))) == s
  {
    hide Spell, Has, Mask;
    forall k | 0 <= k < 16 ensures Load(Spell(s))[k] == s[15 - k] {
      SpellBit(s, k);
    }
  }

  lemma MsbInjective(r: Register, s: Register)
    requires Msb(r) == Msb(s)
    ensures r == s
  {
    forall k | 0 <= k < 16 ensures r[k] == s[k] {
      assert r[k] == Msb(r)[15 - k] && s[k] == Msb(s)[15 - k];
    }
  }

  lemma AppendValue(c: bv16, b: bool)
    requires c < 0x8000
    ensures Append(c, b) as int == 2 * (c as int) + if b then 1 else 0
  {
    if b {
      assert ((c << 1) ^ 1) as int == 2 * (c as int) + 1;
    } else {
      assert ((c << 1) ^ 0) as int == 2 * (c as int);
    }
  }

  lemma AppendBound(c: bv16, b: bool, m: bv16)
    requires SingleBit(m) && Double(m) != 0 && c < m
    ensures Append(c, b) < Double(m)
  {
  }

  lemma {:induction false} SpellBound(s: BitString)
    requires |s| < 16
    ensures Spell(s) < Mask(|s|)
  {
    if s != [] {
      var n := |s| - 1;
      SpellBound(s[..n]);
      MaskSingle(n);
      MaskDouble(n + 1);
      hide Mask, Append, Double, SingleBit;
      AppendBound(Spell(s[..n]), s[n], Mask(n));
    }
  }

  lemma {:induction false} SpellValue(s: BitString)
    requires |s| <= 16
    ensures Spell(s) as int == Value(s)
  {
    if s == [] {
      assert (0 as bv16) as int == 0;
    } else {
      var n := |s| - 1;
      SpellValue(s[..n]);
      SpellBound(s[..n]);
      TopMask(n);
      hide Append, Mask;
      AppendValue(Spell(s[..n]), s[n]);
    }
  }

  lemma TopMask(n: nat)
    requires n < 16
    ensures Mask(n) <= 0x8000
  {
  }

  /** The register's word is the machine word itself. */
  lemma WordValue(c: bv16)
    ensures ToWord(Load(c)) == c as int
  {
    hide Spell, Load;
    SpellMsb(c);
    SpellValue(Msb(Load(c)));
  }

  /** A byte in the top half of a word. */
  function ByteAtTop(b: Byte): bv16 {
    (b as bv16) << 8
  }

  lemma NumberRoundTrip(c: bv16)
    ensures (c as int) as bv16 == c
  {
  }

  lemma ByteSpelled(b: Byte)
    ensures Spell(ByteBits(b)) == b as bv16
  {
    hide Spell, ByteBits;
    ByteValue(b);
    SpellValue(ByteBits(b));
    NumberRoundTrip(Spell(ByteBits(b)));
  }

  lemma ByteValue(b: Byte)
    ensures Value(ByteBits(b)) == b
  {
    assert Pow2(8) == 0x100;
    ValueBitsOf(b, 8);
  }

  lemma {:induction false} SpellPadded(s: BitString, n: nat)
    requires |s| + n <= 16
    ensures Spell(s + seq(n, _ => false)) == Shifted(Spell(s), n)
  {
    hide Double, Xor;
    var t := s + seq(n, _ => false);
    if n == 0 {
      assert t == s;
    } else {
      SpellPadded(s, n - 1);
      assert t[..|t| - 1] == s + seq(n - 1, _ => false);
      AppendZero(Shifted(Spell(s), n - 1));
    }
  }

  lemma AppendZero(c: bv16)
    ensures Append(c, false) == Double(c)
  {
  }

  function Shifted(c: bv16, n: nat): bv16
    decreases n
  {
    if n == 0 then c else Double(Shifted(c, n - 1))
  }

  lemma ShiftedByte(c: bv16)
    ensures Shifted(c, 8) == c << 8
  {
    assert Shifted(c, 1) == Double(c);
    assert Shifted(c, 2) == Double(Double(c));
    assert Shifted(c, 4) == Double(Double(Shifted(c, 2)));
    assert Shifted(c, 6) == Double(Double(Shifted(c, 4)));
    assert Shifted(c, 8) == Double(Double(Shifted(c, 6)));
  }

  /** The byte the loop XORs into the register is the message byte shifted left by 8. */
  lemma ByteAtTopBits(b: Byte)
    ensures ByteAtTop(b) == AtTop(ByteBits(b))
  {
    hide Spell, ByteBits, Shifted;
    SpellPadded(ByteBits(b), 8);
    ByteSpelled(b);
    ShiftedByte(b as bv16);
  }

  method Compute(data: seq<Byte>) returns (crc: Word)
    ensures crc == Crc(data)
  {
    hide Load, LoopStep, AtTop, ByteAtTop, Xor, BitIn, XorTop, ByteBits;
    var reg: bv16 := 0xFFFF;
    LoadInit();
    for i := 0 to |data|
      invariant Load(reg) == RunBytes(INIT, data[..i])
    {
      ghost var r := Load(reg);
      LoadXorTop(reg, ByteBits(data[i]));
      ByteAtTopBits(data[i]);
      reg := Xor(reg, ByteAtTop(data[i]));
      ghost var start := Load(reg);
      for bit := 0 to 8
        invariant Load(reg) == Shifts(start, bit)
      {
        LoadStep(reg);
        ShiftsSnoc(start, bit);
        reg := LoopStep(reg);
      }
      RunIsShifts(r, ByteBits(data[i]));
      assert data[..i + 1][..i] == data[..i];
      RunConcat(INIT, MessageBits(data[..i]), ByteBits(data[i]));
    }
    assert data[..|data|] == data;
    WordValue(reg);
    crc := reg as int;
  }
}
