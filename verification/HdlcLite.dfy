/** HDLC-lite tether framing: length-prefixed, CRC-protected, byte-stuffed. */
module HdlcLite {
  import opened Wrappers
  import opened Bytes
  import opened Bits
  import opened Crc16
  import CrcLoop

  const FLAG: Byte := 0x7E
  const ESC: Byte := 0x7D
  const MODE_NOMINAL: Byte := 0x00
  const MODE_COLLAPSE: Byte := 0x01
  const MAX_PAYLOAD_NOMINAL := 240
  const MAX_PAYLOAD_COLLAPSE := 80

  datatype EncodeError = InvalidArgument

  // --- Stuffing ------------------------------------------------------------------

  function StuffByte(b: Byte): (s: seq<Byte>) {
    if b == FLAG then [ESC, 0x5E] else if b == ESC then [ESC, 0x5D] else [b]
  }

  function Stuff(body: seq<Byte>): seq<Byte> {
    if body == [] then [] else Stuff(body[..|body| - 1]) + StuffByte(body[|body| - 1])
  }

  /** Where the unstuffer stands after a prefix of the interior. */
  datatype Scan = Rejected | Live(body: seq<Byte>, escaped: bool)

  function ScanByte(s: Scan, b: Byte): Scan {
    if s.Rejected? then Rejected
    else if s.escaped then
      if b == 0x5E then Live(s.body + [FLAG], false)
      else if b == 0x5D then Live(s.body + [ESC], false)
      else Rejected
    else if b == ESC then Live(s.body, true)
    else if b == FLAG then Rejected
    else Live(s.body + [b], false)
  }

  function ScanAll(interior: seq<Byte>): Scan {
    if interior == [] then Live([], false)
    else ScanByte(ScanAll(interior[..|interior| - 1]), interior[|interior| - 1])
  }

  function Unstuff(interior: seq<Byte>): Option<seq<Byte>> {
    var s := ScanAll(interior);
    if s.Live? && !s.escaped then Some(s.body) else None
  }

  function SpecialCount(s: seq<Byte>): nat {
    if s == [] then 0
    else SpecialCount(s[..|s| - 1]) + if s[|s| - 1] == FLAG || s[|s| - 1] == ESC then 1 else 0
  }

  lemma {:induction false} StuffLength(body: seq<Byte>)
    ensures |Stuff(body)| == |body| + SpecialCount(body)
  {
    if body != [] {
      StuffLength(body[..|body| - 1]);
    }
  }

  lemma {:induction false} StuffHidesFlag(body: seq<Byte>)
    ensures FLAG !in Stuff(body)
  {
    if body != [] {
      StuffHidesFlag(body[..|body| - 1]);
    }
  }

  lemma {:induction false} ScanConcat(a: seq<Byte>, b: Byte)
    ensures ScanAll(a + [b]) == ScanByte(ScanAll(a), b)
  {
    assert (a + [b])[..|a|] == a;
  }

  lemma ScanStuffByte(s: seq<Byte>, body: seq<Byte>, b: Byte)
    requires ScanAll(s) == Live(body, false)
    ensures ScanAll(s + StuffByte(b)) == Live(body + [b], false)
  {
    hide ScanAll;
    if b == FLAG || b == ESC {
      var e := if b == FLAG then 0x5E else 0x5D;
      ScanConcat(s, ESC);
      ScanConcat(s + [ESC], e);
      assert s + [ESC, e] == s + [ESC] + [e];
    } else {
      ScanConcat(s, b);
    }
  }

  lemma {:induction false} ScanStuff(body: seq<Byte>)
    ensures ScanAll(Stuff(body)) == Live(body, false)
  {
    if body != [] {
      var n := |body| - 1;
      ScanStuff(body[..n]);
      hide ScanAll, StuffByte;
      ScanStuffByte(Stuff(body[..n]), body[..n], body[n]);
      assert body[..n] + [body[n]] == body;
    }
  }

  lemma StuffSnoc(body: seq<Byte>, b: Byte)
    ensures Stuff(body + [b]) == Stuff(body) + StuffByte(b)
  {
    assert (body + [b])[..|body|] == body;
  }

  function Pending(s: Scan): seq<Byte>
    requires s.Live?
  {
    Stuff(s.body) + if s.escaped then [ESC] else []
  }

  lemma ScanBytePending(s: Scan, b: Byte)
    requires s.Live? && ScanByte(s, b).Live?
    ensures Pending(ScanByte(s, b)) == Pending(s) + [b]
  {
    hide Stuff;
    if s.escaped || b != ESC {
      var x := if !s.escaped then b else if b == 0x5E then FLAG else ESC;
      StuffSnoc(s.body, x);
    }
  }

  /** Whatever the unstuffer has accepted so far is exactly a stuffed body, plus the pending escape if any. */
  lemma {:induction false} ScanIsStuff(interior: seq<Byte>)
    ensures ScanAll(interior).Live? ==> interior == Pending(ScanAll(interior))
  {
    if interior == [] {
      assert Pending(Live([], false)) == [];
    } else {
      hide ScanAll, Pending;
      var n := |interior| - 1;
      assert interior == interior[..n] + [interior[n]];
      ScanConcat(interior[..n], interior[n]);
      ScanIsStuff(interior[..n]);
      if ScanAll(interior).Live? {
        ScanBytePending(ScanAll(interior[..n]), interior[n]);
      }
    }
  }

  /** Unstuffing accepts exactly the stuffed forms. */
  lemma UnstuffExact(interior: seq<Byte>, body: seq<Byte>)
    ensures Unstuff(interior) == Some(body) <==> interior == Stuff(body)
  {
    ScanIsStuff(interior);
    ScanStuff(body);
  }

  lemma StuffInjective(a: seq<Byte>, b: seq<Byte>)
    requires Stuff(a) == Stuff(b)
    ensures a == b
  {
    ScanStuff(a);
    ScanStuff(b);
  }

  // --- Frames -------------------------------------------------------------------------

  /** Mode, big-endian length, payload; the length is the low 16 bits of the payload size. */
  function Header(mode: Byte, payload: seq<Byte>): seq<Byte> {
    [mode] + Be16(|payload| % 0x1_0000) + payload
  }

  function Body(mode: Byte, payload: seq<Byte>): seq<Byte> {
    Header(mode, payload) + Be16(Crc(Header(mode, payload)))
  }

  function Wire(body: seq<Byte>): seq<Byte> {
    [FLAG] + Stuff(body) + [FLAG]
  }

  function Frame(mode: Byte, payload: seq<Byte>): seq<Byte> {
    Wire(Body(mode, payload))
  }

  predicate WithinLimit(mode: Byte, size: nat) {
    && (mode == MODE_NOMINAL ==> size <= MAX_PAYLOAD_NOMINAL)
    && (mode == MODE_COLLAPSE ==> size <= MAX_PAYLOAD_COLLAPSE)
  }

  function EncodeResult(mode: Byte, payload: seq<Byte>): Result<seq<Byte>, EncodeError> {
    if WithinLimit(mode, |payload|) then Ok(Frame(mode, payload)) else Err(InvalidArgument)
  }

  method Encode(mode: Byte, payload: seq<Byte>) returns (r: Result<seq<Byte>, EncodeError>)
    ensures r == EncodeResult(mode, payload)
  {
    if mode == MODE_NOMINAL && |payload| > MAX_PAYLOAD_NOMINAL {
      return Err(InvalidArgument);
    }
    if mode == MODE_COLLAPSE && |payload| > MAX_PAYLOAD_COLLAPSE {
      return Err(InvalidArgument);
    }
    var body := BuildBody(mode, payload);
    var wire := StuffBody(body);
    return Ok(wire);
  }

  method StuffBody(body: seq<Byte>) returns (wire: seq<Byte>)
    ensures wire == Wire(body)
  {
    StuffEmpty(body[..0]);
    hide Stuff, StuffByte;
    wire := [FLAG];
    for i := 0 to |body|
      invariant wire == [FLAG] + Stuff(body[..i])
    {
      ghost var done := Stuff(body[..i]);
      assert body[..i + 1] == body[..i] + [body[i]];
      StuffSnoc(body[..i], body[i]);
      wire := wire + StuffByte(body[i]);
      assert wire == [FLAG] + (done + StuffByte(body[i]));
    }
    assert body[..|body|] == body;
    wire := wire + [FLAG];
  }

  method BuildBody(mode: Byte, payload: seq<Byte>) returns (body: seq<Byte>)
    ensures body == Body(mode, payload)
  {
    hide Crc;
    var length := |payload| % 0x1_0000;
    body := [mode];
    body := body + [length / 0x100];
    body := body + [length % 0x100];
    body := body + payload;
    assert body == Header(mode, payload);
    var crc := CrcLoop.Compute(body);
    body := body + [crc / 0x100];
    body := body + [crc % 0x100];
  }

  lemma StuffEmpty(body: seq<Byte>)
    requires body == []
    ensures Stuff(body) == []
  {
  }

  /** What the decoder requires of an unstuffed body, and the payload it then returns. */
  function DecodeBody(body: seq<Byte>): Option<seq<Byte>> {
    if |body| < 5 then None
    else
      var length := Join16(body[1], body[2]);
      if |body| != 1 + 2 + length + 2 then None
      else if Crc(body[..3 + length]) != Join16(body[3 + length], body[4 + length]) then None
      else Some(body[3..3 + length])
  }

  function DecodeResult(wire: seq<Byte>): Option<seq<Byte>> {
    if |wire| < 7 || wire[0] != FLAG || wire[|wire| - 1] != FLAG then None
    else
      var body := Unstuff(wire[1..|wire| - 1]);
      if body.None? then None else DecodeBody(body.value)
  }

  method Decode(wire: seq<Byte>) returns (r: Option<seq<Byte>>)
    ensures r == DecodeResult(wire)
  {
    if |wire| < 7 || wire[0] != FLAG || wire[|wire| - 1] != FLAG {
      return None;
    }
    hide ScanAll, Crc, Join16;
    ghost var interior := wire[1..|wire| - 1];
    ScanEmpty(interior);
    var body: seq<Byte> := [];
    var escapeNext := false;
    for i := 1 to |wire| - 1
      invariant ScanAll(interior[..i - 1]) == Live(body, escapeNext)
    {
      var b := wire[i];
      assert interior[..i] == interior[..i - 1] + [b];
      ScanConcat(interior[..i - 1], b);
      if escapeNext {
        if b == 0x5E {
          body := body + [FLAG];
        } else if b == 0x5D {
          body := body + [ESC];
        } else {
          RejectedForGood(interior, i);
          return None;
        }
        escapeNext := false;
      } else if b == ESC {
        escapeNext := true;
      } else if b == FLAG {
        RejectedForGood(interior, i);
        return None;
      } else {
        body := body + [b];
      }
    }
    assert interior[..|interior|] == interior;
    if escapeNext {
      return None;
    }
    if |body| < 5 {
      return None;
    }
    var length: int := Join16(body[1], body[2]);
    if |body| != 1 + 2 + length + 2 {
      return None;
    }
    var payload := body[3..3 + length];
    var extracted := Join16(body[3 + length], body[4 + length]);
    var computed := CrcLoop.Compute(body[..3 + length]);
    if computed != extracted {
      return None;
    }
    return Some(payload);
  }

  lemma ScanEmpty(interior: seq<Byte>)
    ensures ScanAll(interior[..0]) == Live([], false)
  {
  }

  lemma {:induction false} RejectedForGood(interior: seq<Byte>, i: nat)
    requires i <= |interior| && ScanAll(interior[..i]).Rejected?
    ensures ScanAll(interior).Rejected?
    decreases |interior| - i
  {
    if i < |interior| {
      assert interior[..i + 1][..i] == interior[..i];
      RejectedForGood(interior, i + 1);
    } else {
      assert interior[..i] == interior;
    }
  }

  // --- Round trip and canonicity ------------------------------------------------------

  lemma AcceptedBody(body: seq<Byte>, p: seq<Byte>)
    requires DecodeBody(body) == Some(p)
    ensures |body| == |p| + 5 && |p| < 0x1_0000 && body == Body(body[0], p)
  {
    hide Crc, Join16, Be16;
    var n := |p|;
    JoinBe16(body[1], body[2], n);
    var header := body[..3 + n];
    assert header == Header(body[0], p);
    JoinBe16(body[3 + n], body[4 + n], Crc(header));
    assert body == header + [body[3 + n], body[4 + n]];
  }

  lemma AcceptsBody(mode: Byte, p: seq<Byte>)
    requires |p| < 0x1_0000
    ensures DecodeBody(Body(mode, p)) == Some(p)
  {
    hide Crc, Join16, Be16;
    var n, body, header := |p|, Body(mode, p), Header(mode, p);
    JoinBe16(body[1], body[2], n);
    assert body[..3 + n] == header;
    JoinBe16(body[3 + n], body[4 + n], Crc(header));
    assert body[3..3 + n] == p;
  }

  lemma BodyParts(mode: Byte, p: seq<Byte>)
    ensures |Body(mode, p)| == |p| + 5 && Body(mode, p)[0] == mode && Body(mode, p)[3..3 + |p|] == p
  {
  }

  lemma WireParts(body: seq<Byte>)
    ensures |Wire(body)| == |body| + 2 + SpecialCount(body)
    ensures Wire(body)[0] == FLAG && Wire(body)[|Wire(body)| - 1] == FLAG
    ensures Wire(body)[1..|Wire(body)| - 1] == Stuff(body)
  {
    StuffLength(body);
  }

  lemma DecodeWire(body: seq<Byte>)
    ensures DecodeResult(Wire(body)) == DecodeBody(body)
  {
    WireParts(body);
    UnstuffExact(Stuff(body), body);
    if |body| + SpecialCount(body) < 5 {
      assert DecodeBody(body) == None;
    }
  }

  lemma AcceptedWire(wire: seq<Byte>, p: seq<Byte>) returns (mode: Byte)
    requires DecodeResult(wire) == Some(p)
    ensures |p| < 0x1_0000 && wire == Frame(mode, p)
  {
    hide Unstuff, Stuff, DecodeBody, Body;
    var interior := wire[1..|wire| - 1];
    var body := Unstuff(interior).value;
    UnstuffExact(interior, body);
    AcceptedBody(body, p);
    assert wire == [FLAG] + interior + [FLAG];
    mode := body[0];
  }

  /** The decoder accepts exactly the frames the encoder builds, of every mode and up to 65535 payload bytes. */
  lemma DecodeExact(wire: seq<Byte>, p: seq<Byte>)
    ensures DecodeResult(wire) == Some(p) <==> |p| < 0x1_0000 && exists mode: Byte :: wire == Frame(mode, p)
  {
    hide DecodeResult, Body, Wire, DecodeBody;
    if DecodeResult(wire) == Some(p) {
      var mode := AcceptedWire(wire, p);
    }
    if |p| < 0x1_0000 && exists mode: Byte :: wire == Frame(mode, p) {
      var mode: Byte :| wire == Frame(mode, p);
      DecodeWire(Body(mode, p));
      AcceptsBody(mode, p);
    }
  }

  lemma DecodeFrame(mode: Byte, p: seq<Byte>)
    ensures DecodeResult(Frame(mode, p)) == (if |p| < 0x1_0000 then Some(p) else None)
  {
    var body := Body(mode, p);
    BodyParts(mode, p);
    DecodeWire(body);
    if |p| < 0x1_0000 {
      AcceptsBody(mode, p);
    } else {
      var d := DecodeBody(body);
      if d.Some? {
        AcceptedBody(body, d.value);
      }
    }
  }

  /** Encoding and decoding return the payload exactly when its size fits the 16-bit length field. */
  lemma RoundTrip(mode: Byte, p: seq<Byte>)
    requires EncodeResult(mode, p).Ok?
    ensures DecodeResult(EncodeResult(mode, p).value) == (if |p| < 0x1_0000 then Some(p) else None)
  {
    DecodeFrame(mode, p);
  }

  lemma WireLength(mode: Byte, p: seq<Byte>)
    ensures |Frame(mode, p)| == |p| + 7 + SpecialCount(Body(mode, p))
  {
    BodyParts(mode, p);
    WireParts(Body(mode, p));
  }

  /** No two wires decode to the same mode and payload, and one wire carries only one such pair. */
  lemma FrameInjective(m: Byte, p: seq<Byte>, n: Byte, q: seq<Byte>)
    ensures Frame(m, p) == Frame(n, q) <==> m == n && p == q
  {
    if Frame(m, p) == Frame(n, q) {
      WireParts(Body(m, p));
      WireParts(Body(n, q));
      StuffInjective(Body(m, p), Body(n, q));
      BodyParts(m, p);
      BodyParts(n, q);
    }
  }

  // --- The bytes as numbers ---------------------------------------------------------------------

  /** Mode, payload size high byte first, payload, CRC high byte first. */
  lemma BodyBytes(mode: Byte, p: seq<Byte>)
    ensures var body, n := Body(mode, p), |p|;
            && |body| == n + 5
            && body[0] == mode
            && body[1] as int * 0x100 + body[2] == n % 0x1_0000
            && body[3..3 + n] == p
            && body[3 + n] as int * 0x100 + body[4 + n] == Crc(body[..3 + n])
  {
    hide Crc;
    var body, n := Body(mode, p), |p|;
    assert body[..3 + n] == Header(mode, p);
  }

  /**
   The decoder takes a body exactly when bytes 1 and 2 are its size less 5, high byte first, and its CRC is zero; the
   payload is what lies between them and the last two bytes.
   */
  lemma DecodeBytes(body: seq<Byte>)
    ensures DecodeResult([0x7E] + Stuff(body) + [0x7E])
            == if |body| >= 5 && body[1] as int * 0x100 + body[2] + 5 == |body| && Crc(body) == 0
               then Some(body[3..|body| - 2]) else None
  {
    DecodeWire(body);
    hide Crc, DecodeResult, Stuff;
    if |body| >= 5 {
      var n := |body| - 2;
      assert body == body[..n] + [body[n], body[n + 1]];
      ZeroResidue(body[..n], body[n], body[n + 1]);
      JoinBe16(body[n], body[n + 1], Crc(body[..n]));
    }
  }

  /** A frame: 0x7E, the stuffed body, 0x7E. */
  lemma FrameBytes(mode: Byte, p: seq<Byte>)
    ensures Frame(mode, p) == [0x7E] + Stuff(Body(mode, p)) + [0x7E]
    ensures 0x7E !in Stuff(Body(mode, p))
  {
    StuffHidesFlag(Body(mode, p));
  }

  /** Stuffing goes byte by byte; 0x7E becomes 7D 5E, 0x7D becomes 7D 5D, every other byte stays. */
  lemma StuffBytes(body: seq<Byte>, b: Byte)
    ensures Stuff([]) == []
    ensures Stuff(body + [b])
            == Stuff(body) + if b == 0x7E then [0x7D, 0x5E] else if b == 0x7D then [0x7D, 0x5D] else [b]
  {
    StuffSnoc(body, b);
  }

  /** Mode 0 takes up to 240 bytes, mode 1 up to 80, every other mode any number. */
  lemma LimitsExact(mode: Byte, p: seq<Byte>)
    ensures EncodeResult(mode, p)
            == if (mode == 0x00 && |p| > 240) || (mode == 0x01 && |p| > 80) then Err(InvalidArgument)
               else Ok(Frame(mode, p))
  {
  }

  // --- Error detection -------------------------------------------------------------------

  /** A body that passes the CRC check has CRC zero over all of its bytes. */
  lemma AcceptedResidue(body: seq<Byte>)
    requires DecodeBody(body).Some?
    ensures Crc(body) == 0
  {
    hide Crc, Join16, Be16;
    var n := |body| - 2;
    JoinBe16(body[n], body[n + 1], Crc(body[..n]));
    ZeroResidue(body[..n], body[n], body[n + 1]);
    assert body == body[..n] + [body[n], body[n + 1]];
  }

  /**
   Take the body of any encoded frame and change it within any 16 consecutive bits, be they mode, length,
   payload or CRC: re-stuffed and sent, it is not decoded.
   */
  lemma BurstRejected(mode: Byte, p: seq<Byte>, corrupt: seq<Byte>, from: nat)
    requires DifferWithinWindow(Body(mode, p), corrupt, from) && corrupt != Body(mode, p)
    ensures DecodeResult(Wire(corrupt)) == None
  {
    var header := Header(mode, p);
    ZeroResidue(header, Crc(header) / 0x100, Crc(header) % 0x100);
    BurstDetected(Body(mode, p), corrupt, from);
    DecodeWire(corrupt);
    if DecodeBody(corrupt).Some? {
      AcceptedResidue(corrupt);
    }
  }

  /** In particular: any change to one byte, or to two adjacent bytes. */
  lemma AdjacentBytesRejected(mode: Byte, p: seq<Byte>, corrupt: seq<Byte>, i: nat)
    requires |corrupt| == |Body(mode, p)| && i + 2 <= |corrupt| && corrupt != Body(mode, p)
    requires corrupt[..i] == Body(mode, p)[..i] && corrupt[i + 2..] == Body(mode, p)[i + 2..]
    ensures DecodeResult(Wire(corrupt)) == None
  {
    BytesToBits(Body(mode, p), corrupt, i);
    BurstRejected(mode, p, corrupt, 8 * i);
  }

  lemma BytesToBits(a: seq<Byte>, b: seq<Byte>, i: nat)
    requires |a| == |b| && i + 2 <= |a| && a[..i] == b[..i] && a[i + 2..] == b[i + 2..]
    ensures DifferWithinWindow(a, b, 8 * i)
  {
    hide MessageBits;
    SplitBitsAt(a, i);
    SplitBitsAt(b, i);
    SplitBitsAt(a, i + 2);
    SplitBitsAt(b, i + 2);
    assert 8 * (i + 2) == 8 * i + 16;
  }

  lemma SplitBitsAt(a: seq<Byte>, i: nat)
    requires i <= |a|
    ensures MessageBits(a)[..8 * i] == MessageBits(a[..i])
    ensures MessageBits(a)[8 * i..] == MessageBits(a[i..])
  {
    hide MessageBits;
    MessageBitsConcat(a[..i], a[i..]);
    assert a == a[..i] + a[i..];
  }

  // --- Transparency of the byte stream --------------------------------------------------

  function Stream(wires: seq<seq<Byte>>): seq<Byte> {
    if wires == [] then [] else wires[0] + Stream(wires[1..])
  }

  /** A flag, a stuffed body, a flag; every encoded frame is one, decodable or not. */
  ghost predicate Framed(wire: seq<Byte>) {
    exists body: seq<Byte> :: wire == Wire(body)
  }

  ghost predicate AllFramed(wires: seq<seq<Byte>>) {
    forall w | w in wires :: Framed(w)
  }

  lemma FlagsAtEndsOnly(wire: seq<Byte>, i: nat)
    requires Framed(wire) && i < |wire|
    ensures |wire| >= 2
    ensures wire[i] == FLAG <==> i == 0 || i == |wire| - 1
  {
    var body :| wire == Wire(body);
    StuffHidesFlag(body);
    if 0 < i < |wire| - 1 {
      assert wire[i] == Stuff(body)[i - 1];
    }
  }

  lemma StreamNonEmpty(wires: seq<seq<Byte>>)
    requires AllFramed(wires)
    ensures Stream(wires) == [] <==> wires == []
  {
    if wires != [] {
      assert wires[0] in wires;
    }
  }

  /** A byte stream can be cut into frames in at most one way. */
  lemma {:induction false} StreamUnambiguous(ws: seq<seq<Byte>>, vs: seq<seq<Byte>>)
    requires AllFramed(ws) && AllFramed(vs) && Stream(ws) == Stream(vs)
    ensures ws == vs
  {
    if ws == [] || vs == [] {
      StreamNonEmpty(ws);
      StreamNonEmpty(vs);
    } else {
      hide Framed;
      var s, w, v := Stream(ws), ws[0], vs[0];
      assert w in ws && v in vs;
      FlagsAtEndsOnly(w, 0);
      FlagsAtEndsOnly(v, 0);
      FlagsAtEndsOnly(w, |w| - 1);
      FlagsAtEndsOnly(v, |v| - 1);
      assert forall i | 0 <= i < |w| && i < |v| :: w[i] == s[i] == v[i];
      if |w| < |v| {
        FlagsAtEndsOnly(v, |w| - 1);
      }
      if |v| < |w| {
        FlagsAtEndsOnly(w, |v| - 1);
      }
      assert w == s[..|w|] == v && Stream(ws[1..]) == s[|w|..] == Stream(vs[1..]);
      StreamUnambiguous(ws[1..], vs[1..]);
      assert ws == [w] + ws[1..] && vs == [v] + vs[1..];
    }
  }

  datatype Sent = Sent(mode: Byte, payload: seq<Byte>)

  function Frames(ms: seq<Sent>): (ws: seq<seq<Byte>>)
    ensures |ws| == |ms|
    ensures forall k | 0 <= k < |ms| :: ws[k] == Frame(ms[k].mode, ms[k].payload)
  {
    seq(|ms|, k requires 0 <= k < |ms| => Frame(ms[k].mode, ms[k].payload))
  }

  /**
   However a receiver cuts the stream of encoded frames back into frames, it gets one frame per payload sent, and
   decoding them gives the payloads in order, save those too large for the length field.
   */
  lemma PayloadsRecovered(ms: seq<Sent>, ws: seq<seq<Byte>>)
    requires AllFramed(ws) && Stream(ws) == Stream(Frames(ms))
    ensures |ws| == |ms|
    ensures forall k | 0 <= k < |ms| ::
              DecodeResult(ws[k]) == (if |ms[k].payload| < 0x1_0000 then Some(ms[k].payload) else None)
  {
    hide DecodeResult, Body, Wire;
    assert AllFramed(Frames(ms));
    StreamUnambiguous(ws, Frames(ms));
    forall k | 0 <= k < |ms|
      ensures DecodeResult(ws[k]) == (if |ms[k].payload| < 0x1_0000 then Some(ms[k].payload) else None)
    {
      DecodeFrame(ms[k].mode, ms[k].payload);
    }
  }

  /** Two streams of encoded frames are equal only if the same payloads were sent in the same modes. */
  lemma SentRecovered(ms: seq<Sent>, ns: seq<Sent>)
    requires Stream(Frames(ms)) == Stream(Frames(ns))
    ensures ms == ns
  {
    hide Wire, Body;
    assert AllFramed(Frames(ms)) && AllFramed(Frames(ns));
    StreamUnambiguous(Frames(ms), Frames(ns));
    forall k | 0 <= k < |ms| ensures ms[k] == ns[k] {
      assert Frames(ms)[k] == Frames(ns)[k];
      FrameInjective(ms[k].mode, ms[k].payload, ns[k].mode, ns[k].payload);
    }
  }
}
