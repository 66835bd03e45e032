/**
 Error detection in the power gateway. Its trailer carries the CRC least significant byte first, so the CRC of a
 whole body is not zero and the burst guarantee of the tether frames is lost: of the changes confined to 16
 consecutive bits, exactly twelve patterns across packet and trailer pass, and they pass in every frame.
 */
module EpsCorruption {
  import opened Bytes
  import opened Bits
  import opened Crc16
  import opened CrcDifference
  import opened CrcLoop
  import opened EpsGateway
  import HdlcLite

  // --- The patterns ----------------------------------------------------------------------------------

  /** Differences in the last two packet bytes and in the trailer that cancel and fit one 16-bit window. */
  predicate Cancels(w: bv16, t: bv16) {
    Narrow(w, t) || Wide(w, t)
  }

  /** In the last packet byte alone. */
  predicate Narrow(w: bv16, t: bv16) {
    || (w == 0x0001 && t == 0x2110) || (w == 0x0002 && t == 0x4220) || (w == 0x0003 && t == 0x6330)
    || (w == 0x0004 && t == 0x8440) || (w == 0x0005 && t == 0xA550) || (w == 0x0006 && t == 0xC660)
    || (w == 0x0007 && t == 0xE770) || (w == 0x0089 && t == 0xA100)
  }

  predicate Wide(w: bv16, t: bv16) {
    || (w == 0x0235 && t == 0x9400) || (w == 0x08C5 && t == 0x4000)
    || (w == 0x118A && t == 0x8000) || (w == 0x194F && t == 0xC000)
  }

  lemma NarrowCancels(w: bv16, t: bv16)
    requires Narrow(w, t)
    ensures t == Swap(SixteenBits(w)) && t != 0
  {
  }

  lemma WideCancels(w: bv16, t: bv16)
    requires Wide(w, t)
    ensures t == Swap(SixteenBits(w)) && t != 0
  {
  }

  lemma Cancelling(w: bv16, t: bv16)
    requires Cancels(w, t)
    ensures t == Swap(SixteenBits(w)) && t != 0
  {
    hide Narrow, Wide, Swap, SixteenBits;
    if Narrow(w, t) {
      NarrowCancels(w, t);
    } else {
      WideCancels(w, t);
    }
  }

  /** m selects the top bit outside the window on the packet's side; below it the trailer is unchanged. */
  lemma OnlyThese(w: bv16, t: bv16, m: bv16)
    requires SingleBit(m) && w < m && Low(t, m) == 0
    requires w != 0 && t == Swap(SixteenBits(w))
    ensures Cancels(w, t)
  {
  }

  // --- Which changes of a body pass -------------------------------------------------------------------------

  /** The CRC bytes of a message in the order of the trailer. */
  lemma TrailerBits(a: seq<Byte>)
    ensures MessageBits(Le16(Crc(a))) == Swapped(Msb(RunBytes(INIT, a)))
  {
    var c := Crc(a);
    hide ByteBits, RunBytes;
    BitsOfValue(Msb(RunBytes(INIT, a)));
    WordBits(c);
    TwoByteBits(c % 0x100, c / 0x100);
  }

  lemma AcceptedTrailer(u: seq<Byte>)
    requires |u| >= 3
    ensures BodyVerdict(u) == Success
            <==> MessageBits(u[|u| - 2..]) == Swapped(Msb(RunBytes(INIT, u[..|u| - 2])))
  {
    hide Crc, RunBytes, MessageBits, Swapped;
    var n := |u| - 2;
    TrailerBits(u[..n]);
    BodyVerdictExact(u);
    assert u == u[..n] + u[n..];
    SamePrefix(u[..n], u[n..], Le16(Crc(u[..n])));
    if MessageBits(u[n..]) == MessageBits(Le16(Crc(u[..n]))) {
      MessageBitsInjective(u[n..], Le16(Crc(u[..n])));
    }
  }

  /** Where the bodies differ: in the packets, and in the trailers. */
  function PacketDiff(u: seq<Byte>, v: seq<Byte>): BitString
    requires |u| == |v| >= 2
  {
    Diff(u[..|u| - 2], v[..|u| - 2])
  }

  function TrailerDiff(u: seq<Byte>, v: seq<Byte>): (d: BitString)
    requires |u| == |v| >= 2
    ensures |d| == 16
  {
    Diff(u[|u| - 2..], v[|u| - 2..])
  }

  /**
   Any change of an accepted body, anywhere in packet and trailer, is accepted exactly when the trailer differs by
   the CRC of the packets' difference, run from a clear register, with its bytes swapped.
   */
  lemma ChangeExact(u: seq<Byte>, v: seq<Byte>)
    requires BodyVerdict(u) == Success && |v| == |u| >= 3
    ensures BodyVerdict(v) == Success
            <==> TrailerDiff(u, v) == Swapped(Msb(Run(CLEAR, PacketDiff(u, v))))
  {
    hide BodyVerdict, RunBytes, Run, MessageBits;
    var n := |u| - 2;
    var r, d := RunBytes(INIT, u[..n]), Run(CLEAR, PacketDiff(u, v));
    AcceptedTrailer(u);
    AcceptedTrailer(v);
    RunDiff(u[..n], v[..n]);
    SwappedXor(r, d);
    XorCancels(Swapped(Msb(r)), MessageBits(v[n..]), Swapped(Msb(d)));
  }

  lemma SwappedXor(r: Register, d: Register)
    ensures Swapped(Msb(XorBits(r, d))) == XorBits(Swapped(Msb(r)), Swapped(Msb(d)))
  {
  }

  /** Only the last two packet bytes and the trailer may differ. */
  ghost predicate TailChange(u: seq<Byte>, v: seq<Byte>) {
    |u| == |v| >= 3 && (|u| >= 4 ==> u[..|u| - 4] == v[..|u| - 4])
  }

  /** The XOR of the last two packet bytes, the first of them 0 if there is none. */
  function PacketWord(u: seq<Byte>, v: seq<Byte>): bv16
    requires |u| == |v| >= 3
  {
    var n := |u| - 2;
    if n >= 2 then (XorByte(u[n - 2], v[n - 2]) << 8) ^ XorByte(u[n - 1], v[n - 1])
    else XorByte(u[n - 1], v[n - 1])
  }

  /** The XOR of the two trailer bytes. */
  function TrailerWord(u: seq<Byte>, v: seq<Byte>): bv16
    requires |u| == |v| >= 3
  {
    var n := |u| - 2;
    (XorByte(u[n], v[n]) << 8) ^ XorByte(u[n + 1], v[n + 1])
  }

  /** The last 16 bits of the packets' difference. */
  function TailBits(u: seq<Byte>, v: seq<Byte>): (d: BitString)
    requires |u| == |v| >= 3
    ensures |d| == 16
  {
    var n := |u| - 2;
    if n >= 2 then Diff(u[n - 2..n], v[n - 2..n]) else Clear(8) + Diff(u[..n], v[..n])
  }

  lemma TailSpelled(u: seq<Byte>, v: seq<Byte>)
    requires |u| == |v| >= 3
    ensures Spell(TailBits(u, v)) == PacketWord(u, v)
    ensures Spell(TrailerDiff(u, v)) == TrailerWord(u, v)
  {
    hide Spell, Diff, XorByte;
    var n := |u| - 2;
    TwoByteDiff(u[n..], v[n..]);
    if n >= 2 {
      TwoByteDiff(u[n - 2..n], v[n - 2..n]);
    } else {
      assert u[..n] == [u[0]] && v[..n] == [v[0]];
      OneByteDiff(u[0], v[0]);
      SpellLeading(8, Diff(u[..n], v[..n]));
    }
  }

  lemma RunTail(u: seq<Byte>, v: seq<Byte>)
    requires TailChange(u, v)
    ensures Run(CLEAR, PacketDiff(u, v)) == Run(CLEAR, TailBits(u, v))
  {
    hide Run, Diff;
    var n := |u| - 2;
    if n >= 2 {
      var h := u[..n - 2];
      assert u[..n] == h + u[n - 2..n] && v[..n] == h + v[n - 2..n];
      DiffConcat(h, u[n - 2..n], h, v[n - 2..n]);
      DiffSame(h);
      RunLeading(8 * |h|, TailBits(u, v));
    } else {
      RunLeading(8, Diff(u[..n], v[..n]));
    }
  }

  lemma TailChangeExact(u: seq<Byte>, v: seq<Byte>)
    requires BodyVerdict(u) == Success && TailChange(u, v)
    ensures BodyVerdict(v) == Success <==> TrailerWord(u, v) == Swap(SixteenBits(PacketWord(u, v)))
  {
    hide BodyVerdict, Run, Spell, Swap, Swapped, SixteenBits;
    hide PacketDiff, TrailerDiff, TailBits, TrailerWord, PacketWord;
    var d := Run(CLEAR, TailBits(u, v));
    ChangeExact(u, v);
    RunTail(u, v);
    RunWord(TailBits(u, v));
    SwapSpelled(Msb(d));
    TailSpelled(u, v);
    if Spell(TrailerDiff(u, v)) == Spell(Swapped(Msb(d))) {
      SpellInjective(TrailerDiff(u, v), Swapped(Msb(d)));
    }
  }

  // --- Changes within 16 consecutive bits ----------------------------------------------------------------------

  lemma DiffParts(u: seq<Byte>, v: seq<Byte>)
    requires |u| == |v| >= 2
    ensures Diff(u, v) == PacketDiff(u, v) + TrailerDiff(u, v)
  {
    hide Diff;
    var n := |u| - 2;
    assert u == u[..n] + u[n..] && v == v[..n] + v[n..];
    DiffConcat(u[..n], u[n..], v[..n], v[n..]);
  }

  /** A window inside the packet: the trailer is the same, and the burst is detected. */
  lemma PacketBurstRefused(u: seq<Byte>, v: seq<Byte>, from: nat)
    requires BodyVerdict(u) == Success && DifferWithinWindow(u, v, from) && u != v
    requires from + 16 <= 8 * (|u| - 2)
    ensures BodyVerdict(v) != Success && u[|u| - 2..] == v[|u| - 2..]
  {
    hide Crc, MessageBits, Diff;
    var n := |u| - 2;
    var d, t := Diff(u, v), TrailerDiff(u, v);
    WindowDiff(u, v, from);
    DiffParts(u, v);
    assert t == d[from + 16..][8 * n - from - 16..] == Clear(16);
    DiffClear(u[n..], v[n..]);
    var a, b := u[..n], v[..n];
    HdlcLite.SplitBitsAt(u, n);
    HdlcLite.SplitBitsAt(v, n);
    assert MessageBits(a)[..from] == MessageBits(u)[..from] && MessageBits(b)[..from] == MessageBits(v)[..from];
    assert MessageBits(a)[from + 16..] == MessageBits(u)[from + 16..][..8 * n - from - 16];
    assert MessageBits(b)[from + 16..] == MessageBits(v)[from + 16..][..8 * n - from - 16];
    assert u == a + u[n..] && v == b + v[n..];
    BurstDetected(a, b, from);
    BodyVerdictBytes(u);
    BodyVerdictBytes(v);
    assert u[n] == u[n..][0] && v[n] == v[n..][0] && u[n + 1] == u[n..][1] && v[n + 1] == v[n..][1];
  }

  lemma BodyVerdictBytes(u: seq<Byte>)
    ensures BodyVerdict(u) == Success
            <==> |u| >= 3 && u[|u| - 2] == Crc(u[..|u| - 2]) % 0x100 && u[|u| - 1] == Crc(u[..|u| - 2]) / 0x100
  {
    hide Crc;
  }

  /** A window that is the trailer: the packet is the same, and its CRC can only be one. */
  lemma TrailerBurstRefused(u: seq<Byte>, v: seq<Byte>)
    requires BodyVerdict(u) == Success && |u| == |v| && u != v && u[..|u| - 2] == v[..|u| - 2]
    ensures BodyVerdict(v) != Success
  {
    hide Crc;
    BodyVerdictExact(u);
    BodyVerdictExact(v);
  }

  /** A window across the boundary, f of its bits in the packet. */
  lemma AcrossBits(u: seq<Byte>, v: seq<Byte>, from: nat, f: nat)
    requires |u| >= 3 && DifferWithinWindow(u, v, from) && from + f == 8 * (|u| - 2) && 0 < f < 16
    ensures TailChange(u, v)
    ensures TailBits(u, v)[..16 - f] == Clear(16 - f)
    ensures TrailerDiff(u, v)[16 - f..] == Clear(f)
  {
    hide Diff;
    var n := |u| - 2;
    var d := Diff(u, v);
    WindowDiff(u, v, from);
    DiffParts(u, v);
    assert TrailerDiff(u, v)[16 - f..] == d[8 * n..][16 - f..] == d[from + 16..];
    if n >= 2 {
      var a, b := u[..n], v[..n];
      assert a == a[..n - 2] + a[n - 2..] && b == b[..n - 2] + b[n - 2..];
      assert a[n - 2..] == u[n - 2..n] && b[n - 2..] == v[n - 2..n];
      assert a[..n - 2] == u[..n - 2] && b[..n - 2] == v[..n - 2];
      DiffConcat(a[..n - 2], a[n - 2..], b[..n - 2], b[n - 2..]);
      assert Diff(u[..n - 2], v[..n - 2]) == d[..from][..8 * (n - 2)] == Clear(8 * (n - 2));
      DiffClear(u[..n - 2], v[..n - 2]);
      assert TailBits(u, v)[..16 - f] == d[..from][8 * (n - 2)..];
    } else {
      assert TailBits(u, v)[..16 - f] == Clear(8) + d[..from];
    }
  }

  lemma NoChange(u: seq<Byte>, v: seq<Byte>)
    requires TailChange(u, v) && PacketWord(u, v) == 0 && TrailerWord(u, v) == 0
    ensures u == v
  {
    hide Spell, Diff, PacketWord, TrailerWord;
    var n := |u| - 2;
    TailSpelled(u, v);
    SpelledClear(TailBits(u, v));
    SpelledClear(TrailerDiff(u, v));
    DiffClear(u[n..], v[n..]);
    if n >= 2 {
      DiffClear(u[n - 2..n], v[n - 2..n]);
      assert u == u[..n - 2] + u[n - 2..n] + u[n..] && v == v[..n - 2] + v[n - 2..n] + v[n..];
    } else {
      assert Diff(u[..n], v[..n]) == TailBits(u, v)[8..] == Clear(8);
      DiffClear(u[..n], v[..n]);
      assert u == u[..n] + u[n..] && v == v[..n] + v[n..];
    }
  }

  /** The change of packet and trailer is one of the twelve patterns. */
  predicate Evades(u: seq<Byte>, v: seq<Byte>)
    requires |u| == |v|
  {
    |u| >= 3 && Cancels(PacketWord(u, v), TrailerWord(u, v))
  }

  lemma ZeroWord()
    ensures Swap(SixteenBits(0)) == 0
  {
  }

  lemma AcrossBurstExact(u: seq<Byte>, v: seq<Byte>, from: nat, f: nat)
    requires |u| >= 3 && BodyVerdict(u) == Success && DifferWithinWindow(u, v, from) && u != v
    requires from + f == 8 * (|u| - 2) && 0 < f < 16
    ensures BodyVerdict(v) == Success <==> Evades(u, v)
  {
    hide BodyVerdict, PacketWord, TrailerWord, TailBits, TrailerDiff, Cancels;
    hide Spell, Mask, Swap, SixteenBits, SingleBit, Low;
    var w, t := PacketWord(u, v), TrailerWord(u, v);
    AcrossBits(u, v, from, f);
    TailSpelled(u, v);
    FewBits(TailBits(u, v), f);
    LowBitsClear(TrailerDiff(u, v), f);
    MaskSingle(f);
    TailChangeExact(u, v);
    ZeroWord();
    if w == 0 && t == 0 {
      NoChange(u, v);
    }
    if BodyVerdict(v) == Success {
      OnlyThese(w, t, Mask(f));
    }
    if Cancels(w, t) {
      Cancelling(w, t);
    }
  }

  lemma SameTrailer(u: seq<Byte>, v: seq<Byte>)
    requires |u| == |v| >= 3 && u[|u| - 2..] == v[|u| - 2..]
    ensures !Evades(u, v)
  {
    var n := |u| - 2;
    assert u[n] == u[n..][0] == v[n..][0] == v[n] && u[n + 1] == u[n..][1] == v[n..][1] == v[n + 1];
    NoXor(u[n]);
    NoXor(u[n + 1]);
    assert TrailerWord(u, v) == 0;
  }

  lemma SamePacket(u: seq<Byte>, v: seq<Byte>)
    requires |u| == |v| >= 3 && u[..|u| - 2] == v[..|u| - 2]
    ensures !Evades(u, v)
  {
    var n := |u| - 2;
    assert u[n - 1] == u[..n][n - 1] == v[..n][n - 1] == v[n - 1];
    NoXor(u[n - 1]);
    if n >= 2 {
      assert u[n - 2] == u[..n][n - 2] == v[..n][n - 2] == v[n - 2];
      NoXor(u[n - 2]);
    }
    assert PacketWord(u, v) == 0;
  }

  lemma BodyBurstExact(u: seq<Byte>, v: seq<Byte>, from: nat)
    requires BodyVerdict(u) == Success && DifferWithinWindow(u, v, from) && u != v
    ensures BodyVerdict(v) == Success <==> Evades(u, v)
  {
    BodyVerdictExact(u);
    hide BodyVerdict, Evades, MessageBits, Crc;
    var n := |u| - 2;
    if from + 16 <= 8 * n {
      PacketBurstRefused(u, v, from);
      SameTrailer(u, v);
    } else if from < 8 * n {
      AcrossBurstExact(u, v, from, 8 * n - from);
    } else {
      HdlcLite.SplitBitsAt(u, n);
      HdlcLite.SplitBitsAt(v, n);
      MessageBitsInjective(u[..n], v[..n]);
      TrailerBurstRefused(u, v);
      SamePacket(u, v);
    }
  }

  /**
   Change the body of any accepted frame within 16 consecutive bits and stuff it again: it is accepted exactly
   for the twelve patterns, refused otherwise.
   */
  lemma BurstExact(u: seq<Byte>, v: seq<Byte>, from: nat)
    requires VerdictOf(HdlcLite.Wire(u)) == Success && DifferWithinWindow(u, v, from) && u != v
    ensures VerdictOf(HdlcLite.Wire(v)) == Success <==> Evades(u, v)
  {
    hide VerdictOf, BodyVerdict, Evades, DifferWithinWindow;
    WireVerdict(u);
    WireVerdict(v);
    SameLength(u, v, from);
    BodyBurstExact(u, v, from);
  }

  lemma SameLength(u: seq<Byte>, v: seq<Byte>, from: nat)
    requires DifferWithinWindow(u, v, from)
    ensures |u| == |v|
  {
  }

  // --- Two adjacent bytes ------------------------------------------------------------------------------------

  /** v is u with a change in bytes i and i + 1, and nowhere else. */
  ghost predicate AdjacentChange(u: seq<Byte>, v: seq<Byte>, i: nat) {
    |u| == |v| && i + 2 <= |u| && u[..i] == v[..i] && u[i + 2..] == v[i + 2..] && u != v
  }

  lemma OnlyBoundaryPattern(p: bv16, x: bv16)
    requires p < 0x100 && x < 0x100
    ensures Cancels(p, x << 8) <==> p == 0x89 && x == 0xA1
  {
  }

  lemma BoundaryWords(u: seq<Byte>, v: seq<Byte>)
    requires |u| >= 3 && AdjacentChange(u, v, |u| - 3)
    ensures PacketWord(u, v) == XorByte(u[|u| - 3], v[|u| - 3])
    ensures TrailerWord(u, v) == XorByte(u[|u| - 2], v[|u| - 2]) << 8
  {
    var n := |u| - 2;
    assert u[n + 1] == u[n + 1..][0] == v[n + 1..][0] == v[n + 1];
    NoXor(u[n + 1]);
    if n >= 2 {
      assert u[n - 2] == u[..n - 1][n - 2] == v[..n - 1][n - 2] == v[n - 2];
      NoXor(u[n - 2]);
    }
  }

  /**
   A change of one byte, or of two adjacent bytes, is refused, except the last packet byte XORed with 0x89 together
   with the first trailer byte XORed with 0xA1, which is always accepted.
   */
  lemma AdjacentChangeExact(u: seq<Byte>, v: seq<Byte>, i: nat)
    requires VerdictOf(HdlcLite.Wire(u)) == Success && AdjacentChange(u, v, i)
    ensures VerdictOf(HdlcLite.Wire(v)) == Success
            <==> i + 3 == |u| && XorByte(u[i], v[i]) == 0x89 && XorByte(u[i + 1], v[i + 1]) == 0xA1
  {
    hide VerdictOf, Cancels, PacketWord, TrailerWord, XorByte, DifferWithinWindow;
    HdlcLite.BytesToBits(u, v, i);
    BurstExact(u, v, 8 * i);
    var n := |u| - 2;
    if i + 3 == |u| {
      BoundaryWords(u, v);
      SmallDifference(u[i], v[i]);
      SmallDifference(u[i + 1], v[i + 1]);
      OnlyBoundaryPattern(XorByte(u[i], v[i]), XorByte(u[i + 1], v[i + 1]));
    } else if i == n {
      if n >= 1 { SamePacket(u, v); }
    } else {
      assert u[n..] == u[i + 2..][n - i - 2..] && v[n..] == v[i + 2..][n - i - 2..];
      if n >= 1 { SameTrailer(u, v); }
    }
  }

  // --- No frame is safe -----------------------------------------------------------------------------------------

  lemma Halves(c: bv16)
    ensures c >> 8 < 0x100 && c & 0xFF < 0x100 && ((c >> 8) << 8) ^ (c & 0xFF) == c
    ensures c < 0x100 ==> c >> 8 == 0 && c & 0xFF == c
  {
  }

  /** The body that differs from u by w in the last two packet bytes and by t in the trailer. */
  lemma Altered(u: seq<Byte>, w: bv16, t: bv16) returns (v: seq<Byte>)
    requires |u| >= 3 && (|u| >= 4 || FitsByte(w))
    ensures TailChange(u, v) && PacketWord(u, v) == w && TrailerWord(u, v) == t
  {
    hide XorByte;
    var n := |u| - 2;
    Halves(w);
    Halves(t);
    var q := Flip(u[n - 1], w & 0xFF);
    var x := Flip(u[n], t >> 8);
    var y := Flip(u[n + 1], t & 0xFF);
    v := u[n - 1 := q][n := x][n + 1 := y];
    if n >= 2 {
      var p := Flip(u[n - 2], w >> 8);
      v := v[n - 2 := p];
    }
  }

  predicate FitsByte(w: bv16) {
    w < 0x100
  }

  /** A pattern takes the last f packet bits and leaves the last f trailer bits alone. */
  lemma PatternFits(w: bv16, t: bv16) returns (f: nat)
    requires Cancels(w, t)
    ensures 0 < f < 16 && w < Mask(f) && Low(t, Mask(f)) == 0
    ensures FitsByte(w) ==> f <= 8
  {
    assert Mask(3) == 0x8 && Mask(8) == 0x100 && Mask(10) == 0x400 && Mask(13) == 0x2000;
    hide Mask;
    f := if w < 8 then 3 else if w < 0x100 then 8 else if w < 0x400 then 10 else 13;
  }

  /** The converse of AcrossBits. */
  lemma PatternInWindow(u: seq<Byte>, v: seq<Byte>, f: nat)
    requires TailChange(u, v) && 0 < f < 16 && f <= 8 * (|u| - 2)
    requires PacketWord(u, v) < Mask(f) && Low(TrailerWord(u, v), Mask(f)) == 0
    ensures DifferWithinWindow(u, v, 8 * (|u| - 2) - f)
  {
    hide Spell, Mask, Low, Diff, PacketWord, TrailerWord, DifferWithinWindow;
    var n := |u| - 2;
    var from, d := 8 * n - f, Diff(u, v);
    TailSpelled(u, v);
    SmallSpelling(TailBits(u, v), f);
    HighSpelling(TrailerDiff(u, v), f);
    DiffParts(u, v);
    assert d[from + 16..] == TrailerDiff(u, v)[16 - f..];
    if n >= 2 {
      var h := u[..n - 2];
      assert u[..n] == h + u[n - 2..n] && v[..n] == h + v[n - 2..n];
      DiffConcat(h, u[n - 2..n], h, v[n - 2..n]);
      DiffSame(h);
      assert d[..from] == Clear(8 * |h|) + TailBits(u, v)[..16 - f];
    } else {
      assert d[..from] == TailBits(u, v)[8..16 - f] == TailBits(u, v)[..16 - f][8..];
    }
    DiffWindow(u, v, from);
  }

  lemma PatternAccepted(u: seq<Byte>, v: seq<Byte>)
    requires VerdictOf(HdlcLite.Wire(u)) == Success && TailChange(u, v)
    requires Cancels(PacketWord(u, v), TrailerWord(u, v))
    ensures VerdictOf(HdlcLite.Wire(v)) == Success
  {
    hide VerdictOf, BodyVerdict, PacketWord, TrailerWord, Cancels, SixteenBits, Swap;
    WireVerdict(u);
    WireVerdict(v);
    Cancelling(PacketWord(u, v), TrailerWord(u, v));
    TailChangeExact(u, v);
  }

  lemma PatternWindow(u: seq<Byte>, v: seq<Byte>) returns (from: nat)
    requires TailChange(u, v) && (|u| >= 4 || FitsByte(PacketWord(u, v)))
    requires Cancels(PacketWord(u, v), TrailerWord(u, v))
    ensures DifferWithinWindow(u, v, from)
  {
    hide PacketWord, TrailerWord, DifferWithinWindow, Cancels, FitsByte, Low, Mask;
    var f := PatternFits(PacketWord(u, v), TrailerWord(u, v));
    PatternInWindow(u, v, f);
    from := 8 * (|u| - 2) - f;
  }

  /**
   Each of the twelve patterns is a change within 16 consecutive bits that passes in every accepted frame; the four
   that take two packet bytes, in every frame that has them.
   */
  lemma EveryFrameEvaded(u: seq<Byte>, w: bv16, t: bv16) returns (v: seq<Byte>, from: nat)
    requires VerdictOf(HdlcLite.Wire(u)) == Success
    requires Cancels(w, t) && (|u| >= 4 || FitsByte(w))
    ensures DifferWithinWindow(u, v, from) && TailChange(u, v)
    ensures PacketWord(u, v) == w && TrailerWord(u, v) == t
    ensures VerdictOf(HdlcLite.Wire(v)) == Success
  {
    hide VerdictOf, BodyVerdict, PacketWord, TrailerWord, TailChange, Cancels, FitsByte, DifferWithinWindow;
    WireVerdict(u);
    ShortBody(u);
    v := Altered(u, w, t);
    TailLength(u, v);
    PatternAccepted(u, v);
    from := PatternWindow(u, v);
  }

  lemma TailLength(u: seq<Byte>, v: seq<Byte>)
    requires TailChange(u, v)
    ensures |u| == |v|
  {
  }
}
