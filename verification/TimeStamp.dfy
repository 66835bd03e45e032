/** The fleet monitor's time stamp: nanoseconds split into seconds and a 24-bit binary fraction. */
module TimeStamp {
  import opened Bytes
  import TmBridge

  const NS_PER_SECOND := 1_000_000_000
  const FINE_UNITS := 0x100_0000
  /** Seconds representable in the coarse field. */
  const ERA := 0x1_0000_0000

  /** Whole seconds, cut to 32 bits. */
  function Coarse(ns: nat): DWord {
    ns / NS_PER_SECOND % ERA
  }

  function Fine(ns: nat): DWord {
    ns % NS_PER_SECOND * FINE_UNITS / NS_PER_SECOND
  }

  lemma FineFits(ns: nat)
    ensures Fine(ns) < 0x100_0000
  {
  }

  /** The seven bytes a packed packet carries. */
  function Stamp(ns: nat): (s: seq<Byte>)
    ensures |s| == 7
  {
    Be32(Coarse(ns)) + Be24(Fine(ns))
  }

  lemma StampInPacket(ns: nat)
    ensures TmBridge.TimeBytes(Coarse(ns), Fine(ns))[..7] == Stamp(ns)
  {
    hide Coarse, Fine, Be32, Be24;
  }

  /** The bytes read as one big-endian number. */
  function Number(s: seq<Byte>): nat {
    if s == [] then 0 else Number(s[..|s| - 1]) * 0x100 + s[|s| - 1]
  }

  lemma {:induction false} NumberConcat(a: seq<Byte>, b: seq<Byte>, p: nat)
    requires p == Power(|b|)
    ensures Number(a + b) == Number(a) * p + Number(b)
    decreases |b|
  {
    if b == [] {
      assert a + b == a;
    } else {
      var n := |b| - 1;
      assert (a + b)[..|a + b| - 1] == a + b[..n];
      assert Number(a + b) == Number(a + b[..n]) * 0x100 + b[n];
      assert Number(b) == Number(b[..n]) * 0x100 + b[n] && p == Power(n) * 0x100;
      hide Number, Power;
      NumberConcat(a, b[..n], Power(n));
      Regroup(Number(a), Power(n));
    }
  }

  lemma Regroup(x: nat, p: nat)
    ensures x * p * 0x100 == x * (p * 0x100)
  {
  }

  function Power(n: nat): nat {
    if n == 0 then 1 else Power(n - 1) * 0x100
  }

  lemma NumberByte(b: Byte)
    ensures Number([b]) == b
  {
    assert [b][..0] == [];
    assert Number([b]) == Number([]) * 0x100 + b;
  }

  lemma NumberBe16(w: Word)
    ensures Number(Be16(w)) == w
  {
    NumberByte(w / 0x100);
    assert Be16(w)[..1] == [w / 0x100];
  }

  lemma NumberBe32(d: DWord)
    ensures Number(Be32(d)) == d
  {
    hide Be16;
    NumberBe16(d / 0x1_0000);
    NumberBe16(d % 0x1_0000);
    assert Power(2) == 0x1_0000;
    NumberConcat(Be16(d / 0x1_0000), Be16(d % 0x1_0000), 0x1_0000);
  }

  lemma NumberBe24(d: DWord)
    requires d < FINE_UNITS
    ensures Number(Be24(d)) == d
  {
    hide Be16;
    NumberBe16(d % 0x1_0000);
    assert Power(2) == 0x1_0000;
    NumberConcat([d / 0x1_0000 % 0x100], Be16(d % 0x1_0000), 0x1_0000);
    NumberByte(d / 0x1_0000 % 0x100);
  }

  lemma StampUnits(ns: nat)
    ensures Number(Stamp(ns)) == Coarse(ns) * FINE_UNITS + Fine(ns)
  {
    FineFits(ns);
    hide Coarse, Fine, Be32, Be24;
    NumberBe32(Coarse(ns));
    NumberBe24(Fine(ns));
    assert Power(3) == FINE_UNITS;
    NumberConcat(Be32(Coarse(ns)), Be24(Fine(ns)), FINE_UNITS);
  }

  /** The stamp's number: seconds modulo 2^32, times 2^24, and the fraction of a second in units of 2^-24 s. */
  lemma StampNumber(ns: nat)
    ensures Number(Stamp(ns))
            == ns / 1_000_000_000 % 0x1_0000_0000 * 0x100_0000 + ns % 1_000_000_000 * 0x100_0000 / 1_000_000_000
  {
    hide Number, Stamp;
    StampUnits(ns);
  }

  // --- Order -----------------------------------------------------------------------------------

  predicate LexLess(a: seq<Byte>, b: seq<Byte>)
    requires |a| == |b|
  {
    a != [] && (a[0] < b[0] || (a[0] == b[0] && LexLess(a[1..], b[1..])))
  }

  lemma {:induction false} NumberBound(a: seq<Byte>)
    ensures Number(a) < Power(|a|)
  {
    if a != [] {
      NumberBound(a[..|a| - 1]);
    }
  }

  /** For byte strings of equal length, lexicographic order is numeric order. */
  lemma {:induction false} LexIsNumeric(a: seq<Byte>, b: seq<Byte>)
    requires |a| == |b|
    ensures LexLess(a, b) <==> Number(a) < Number(b)
  {
    if a != [] {
      var p := Power(|a| - 1);
      LexIsNumeric(a[1..], b[1..]);
      NumberHead(a);
      NumberHead(b);
      NumberBound(a[1..]);
      NumberBound(b[1..]);
      if a[0] < b[0] {
        ScaledGap(a[0], b[0], p);
      } else if b[0] < a[0] {
        ScaledGap(b[0], a[0], p);
      }
    }
  }

  lemma NumberHead(a: seq<Byte>)
    requires a != []
    ensures Number(a) == a[0] * Power(|a| - 1) + Number(a[1..])
  {
    hide Number, Power;
    assert a == [a[0]] + a[1..];
    NumberByte(a[0]);
    NumberConcat([a[0]], a[1..], Power(|a| - 1));
  }

  lemma ScaledGap(x: nat, y: nat, p: nat)
    requires x < y
    ensures x * p + p <= y * p
  {
    assert y * p == (x + 1) * p + (y - x - 1) * p;
  }

  lemma UnitsMonotone(m: nat, n: nat)
    requires m <= n < ERA * NS_PER_SECOND
    ensures Coarse(m) * FINE_UNITS + Fine(m) <= Coarse(n) * FINE_UNITS + Fine(n)
  {
    FineFits(m);
    var a, b := m / NS_PER_SECOND, n / NS_PER_SECOND;
    assert Coarse(m) == a && Coarse(n) == b;
    if a == b {
      assert m % NS_PER_SECOND <= n % NS_PER_SECOND;
    } else {
      assert a + 1 <= b;
    }
  }

  /** Within the first 2^32 seconds, the stamps of two times never compare against the order of the times. */
  lemma StampMonotone(m: nat, n: nat)
    requires m < 0x1_0000_0000 * 1_000_000_000 && n < 0x1_0000_0000 * 1_000_000_000
    ensures m <= n ==> !LexLess(Stamp(n), Stamp(m))
    ensures LexLess(Stamp(m), Stamp(n)) ==> m < n
  {
    hide Stamp, Coarse, Fine;
    StampUnits(m);
    StampUnits(n);
    LexIsNumeric(Stamp(n), Stamp(m));
    LexIsNumeric(Stamp(m), Stamp(n));
    if m <= n {
      UnitsMonotone(m, n);
    } else {
      UnitsMonotone(n, m);
    }
  }

  // --- Precision -----------------------------------------------------------------------------------

  /** The time a stamp denotes, in nanoseconds. */
  function Recovered(s: seq<Byte>): real {
    Number(s) as real * 1_000_000_000.0 / 16_777_216.0
  }

  /** Within the first 2^32 seconds, a stamp recovers its time to within 60 ns, never late. */
  lemma StampPrecision(ns: nat)
    requires ns < 0x1_0000_0000 * 1_000_000_000
    ensures 0.0 <= ns as real - Recovered(Stamp(ns)) < 60.0
  {
    StampUnits(ns);
    var s, r := ns / NS_PER_SECOND, ns % NS_PER_SECOND;
    var f := Fine(ns);
    assert Coarse(ns) == s && ns == s * NS_PER_SECOND + r;
    assert 0 <= r * FINE_UNITS - f * NS_PER_SECOND < NS_PER_SECOND;
    var units := s * FINE_UNITS + f;
    assert Number(Stamp(ns)) == units;
    assert 0 <= ns * FINE_UNITS - units * NS_PER_SECOND < NS_PER_SECOND;
    Divide(ns, units);
  }

  lemma Divide(ns: nat, units: nat)
    requires 0 <= ns * FINE_UNITS - units * NS_PER_SECOND < NS_PER_SECOND
    ensures 0.0 <= ns as real - units as real * NS_PER_SECOND as real / FINE_UNITS as real < 60.0
  {
    var t := units as real * NS_PER_SECOND as real;
    assert t == (units * NS_PER_SECOND) as real;
    assert (ns * FINE_UNITS) as real == ns as real * FINE_UNITS as real;
  }
}
