/** Unsigned machine integers as bounded integers, and their big-endian byte forms. */
module Bytes {

  type Byte = x: int | 0 <= x < 0x100
  type Word = x: int | 0 <= x < 0x1_0000
  type DWord = x: int | 0 <= x < 0x1_0000_0000

  function Be16(w: Word): (s: seq<Byte>)
    ensures |s| == 2
  {
    [w / 0x100, w % 0x100]
  }

  /** The low 24 bits. */
  function Be24(d: DWord): (s: seq<Byte>)
    ensures |s| == 3
  {
    [d / 0x1_0000 % 0x100] + Be16(d % 0x1_0000)
  }

  function Be32(d: DWord): (s: seq<Byte>)
    ensures |s| == 4
  {
    Be16(d / 0x1_0000) + Be16(d % 0x1_0000)
  }

  function Join16(h: Byte, l: Byte): Word {
    h * 0x100 + l
  }

  function Join32(a: Byte, b: Byte, c: Byte, d: Byte): DWord {
    Join16(a, b) * 0x1_0000 + Join16(c, d)
  }

  lemma JoinBe16(h: Byte, l: Byte, w: Word)
    ensures Join16(h, l) == w <==> [h, l] == Be16(w)
  {
  }

  lemma JoinBe32(a: Byte, b: Byte, c: Byte, d: Byte, w: DWord)
    ensures Join32(a, b, c, d) == w <==> [a, b, c, d] == Be32(w)
  {
    hide Join16, Be16;
    var h, l := w / 0x1_0000, w % 0x1_0000;
    JoinBe16(a, b, h);
    JoinBe16(c, d, l);
    assert [a, b, c, d] == [a, b] + [c, d];
    assert [a, b, c, d][..2] == [a, b] && [a, b, c, d][2..] == [c, d];
    assert Be32(w)[..2] == Be16(h) && Be32(w)[2..] == Be16(l);
  }

  const WRAP32 := 0x1_0000_0000

  /** Addition in a 32-bit counter. */
  function Increment(d: DWord): DWord {
    (d + 1) % WRAP32
  }

  lemma IncrementWrapped(n: nat)
    ensures Increment(n % WRAP32) == (n + 1) % WRAP32
  {
  }

  function Zeros(n: nat): (s: seq<Byte>)
    ensures |s| == n
  {
    seq(n, _ => 0)
  }
}
