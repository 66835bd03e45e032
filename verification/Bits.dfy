/** Bit strings, most significant bit first, and the integers they spell. */
module Bits {
  import opened Bytes

  type BitString = seq<bool>

  function Pow2(k: nat): (p: nat)
    ensures p > 0
  {
    if k == 0 then 1 else 2 * Pow2(k - 1)
  }

  /** The low k bits of n. */
  function BitsOf(n: nat, k: nat): (s: BitString)
    ensures |s| == k
  {
    if k == 0 then [] else BitsOf(n / 2, k - 1) + [n % 2 == 1]
  }

  function Value(s: BitString): nat {
    if s == [] then 0 else 2 * Value(s[..|s| - 1]) + if s[|s| - 1] then 1 else 0
  }

  function ByteBits(b: Byte): (s: BitString)
    ensures |s| == 8
  {
    BitsOf(b, 8)
  }

  /** A message as the bits the CRC loop consumes, in order. */
  function MessageBits(msg: seq<Byte>): (s: BitString)
    ensures |s| == 8 * |msg|
  {
    if msg == [] then [] else MessageBits(msg[..|msg| - 1]) + ByteBits(msg[|msg| - 1])
  }

  lemma Pow2Sixteen()
    ensures Pow2(16) == 0x1_0000
  {
    assert Pow2(8) == 0x100;
    assert Pow2(12) == 0x1000;
  }

  lemma {:induction false} ValueBound(s: BitString)
    ensures Value(s) < Pow2(|s|)
  {
    if s != [] {
      ValueBound(s[..|s| - 1]);
    }
  }

  lemma {:induction false} ValueBitsOf(n: nat, k: nat)
    requires n < Pow2(k)
    ensures Value(BitsOf(n, k)) == n
  {
    if k > 0 {
      ValueBitsOf(n / 2, k - 1);
      assert BitsOf(n, k)[..k - 1] == BitsOf(n / 2, k - 1);
    }
  }

  lemma {:induction false} BitsOfValue(s: BitString)
    ensures BitsOf(Value(s), |s|) == s
  {
    if s != [] {
      BitsOfValue(s[..|s| - 1]);
    }
  }

  lemma {:induction false} BitsOfConcat(h: nat, l: nat, k: nat, j: nat)
    requires l < Pow2(j)
    ensures BitsOf(h * Pow2(j) + l, k + j) == BitsOf(h, k) + BitsOf(l, j)
    decreases j
  {
    if j > 0 {
      var p := Pow2(j - 1);
      assert h * Pow2(j) + l == 2 * (h * p) + l;
      assert (2 * (h * p) + l) / 2 == h * p + l / 2;
      BitsOfConcat(h, l / 2, k, j - 1);
    } else {
      assert h * Pow2(0) + l == h;
    }
  }

  lemma WordBits(w: Word)
    ensures BitsOf(w, 16) == ByteBits(w / 0x100) + ByteBits(w % 0x100)
  {
    assert Pow2(8) == 0x100;
    BitsOfConcat(w / 0x100, w % 0x100, 8, 8);
  }

  lemma {:induction false} MessageBitsConcat(a: seq<Byte>, b: seq<Byte>)
    ensures MessageBits(a + b) == MessageBits(a) + MessageBits(b)
  {
    if b == [] {
      assert a + b == a;
    } else {
      var n := |b| - 1;
      assert (a + b)[..|a + b| - 1] == a + b[..n];
      assert MessageBits(a + b) == MessageBits(a + b[..n]) + ByteBits(b[n]);
      assert MessageBits(b) == MessageBits(b[..n]) + ByteBits(b[n]);
      hide MessageBits, ByteBits;
      MessageBitsConcat(a, b[..n]);
    }
  }

  lemma ByteBitsInjective(a: Byte, b: Byte)
    requires ByteBits(a) == ByteBits(b)
    ensures a == b
  {
    assert Pow2(8) == 0x100;
    ValueBitsOf(a, 8);
    ValueBitsOf(b, 8);
  }

  lemma {:induction false} MessageBitsInjective(a: seq<Byte>, b: seq<Byte>)
    requires MessageBits(a) == MessageBits(b)
    ensures a == b
  {
    assert |a| == |b|;
    if a != [] {
      var n := |a| - 1;
      var x, y := MessageBits(a[..n]), MessageBits(b[..n]);
      assert x == (x + ByteBits(a[n]))[..8 * n] == (y + ByteBits(b[n]))[..8 * n] == y;
      assert ByteBits(a[n]) == (x + ByteBits(a[n]))[8 * n..] == (y + ByteBits(b[n]))[8 * n..] == ByteBits(b[n]);
      ByteBitsInjective(a[n], b[n]);
      MessageBitsInjective(a[..n], b[..n]);
      assert a == a[..n] + [a[n]] && b == b[..n] + [b[n]];
    }
  }
}
