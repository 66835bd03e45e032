# SAKURA-II communications stack: a verified model

This project models the byte codecs, checksums and small state machines of the communications stack, as they are
written in C, C++ and Rust, and proves how they behave on every input and over every run.

* **Checksum.** `Crc16` specifies the CRC-16/CCITT-FALSE register as a polynomial over GF(2) (`Gf2`, `Bits`);
  `CrcLoop` is the byte-wise loop over a 16-bit word, proved to compute it. The CRC is shown to be the remainder of
  polynomial division, linear, injective on every 16-bit window, and to have zero residue. `CrcDifference` follows a
  difference between two messages into their CRCs.
* **Framing.** `HdlcLite` is the tether framing. `EpsGateway` is the second, laxer unstuffer on the power bus, with
  its poll cycle; `EpsCorruption` says exactly which corruption its trailer misses.
* **Space packets.** `CcsdsWire` is the Rust codec and builder, `CfsBindings` the buffer conversions on top of it.
* **Fault injection.** `ScenarioLoader` reads a scenario, `FaultInjector` schedules and frames faults, `SppEncoder`
  writes their packets, `SimAdapter` gates them onto the software bus.
* **Rovers.** `TmBridge` packs housekeeping, `Tether` frames it, `TimeStamp` is the fleet monitor's time split.
* **Run-level state machines.** `BusMonitor` is the bookkeeping of the two bus gateways, `RwaGateway` the CAN fragment
  sequencing, `OrbiterComm` the link state and downlink of the orbiter radio manager.

Code that changes state step by step is a class or a method with a loop, proved equal to a specification function
(`Step`, `Run`, `Emit`, `DecodeResult`, ...); the lemmas then say what that function means, in bytes and numbers where
a layout or a limit is concerned. Machine integers are
bounded types (`Byte`, `Word`, `DWord`) and every wrap-around or truncation is written out, the adapter's cut of the
CRC length to 16 bits included. What is sent on a socket or published on the software bus is appended to a ghost
trace.

## Where the code departs from what is promised of it

Each point is a lemma below; the model follows the code.

* Tether frames of a mode without its own limit carry the payload size modulo 65536: the encoder accepts more than
  65535 bytes and the decoder then returns nothing (`HdlcLite.RoundTrip`). Through the tether client this concerns
  payloads of 65520 to 65526 bytes (`Tether.FrameDecodes`).
* The power gateway reads its CRC least significant byte first, as `docs/interfaces/ICD-mcu-cfs.md` lines 59-67 ask.
  This loses the burst guarantee that the tether frames, most significant byte first, have
  (`HdlcLite.BurstRejected`). Of all changes within 16 consecutive bits of an accepted body, exactly twelve are
  accepted (`EpsCorruption.BurstExact`), and every one of them passes in every accepted frame that is long enough for
  it (`EpsCorruption.EveryFrameEvaded`). As XOR of the last packet bytes, then of the two trailer bytes: 01|2110,
  02|4220, 03|6330, 04|8440, 05|A550, 06|C660, 07|E770, 89|A100, 0235|9400, 08C5|4000, 118A|8000, 194F|C000. Only
  89|A100 stays within two adjacent bytes (`EpsCorruption.AdjacentChangeExact`).
* The injector is described as feeding the simulation adapter, but sends AOS frames. The adapter would accept the
  packet inside every such frame and rejects every frame itself at its APID gate
  (`FaultInjector.AdapterNeedsBarePacket`).
* `docs/interfaces/packet-catalog.md` lines 623-699 give fault packets function code 0x0001 and a CRC in their last two
  bytes. The encoders write 0x0100, put the CRC right after the payload and pad with zeros. The adapter's check of
  the last two bytes still passes, because the padded data has zero residue (`SimAdapter.FaultPacketRouted`).
* `docs/interfaces/ICD-sim-fsw.md` lines 160-178 have the adapter decode the packet header before the APID gate. The
  code reads the APID bits alone, so version, flags and declared length do not matter (`SimAdapter.RoutedExact`).
* `simulation/fault_injector/include/fault_injector.h` line 53 says a fault is marked once its packet has been sent. It is
  marked when a tick reaches it, sent or not: a fault reached while the socket is closed uses up a sequence count and is
  lost, even if the socket is opened again (`FaultInjector.RunSendsOnce`, `FaultInjector.CountersExact`).
* The sample scenario of `docs/interfaces/ICD-sim-fsw.md` lines 71-79 names the link by text; a value that is not a
  number makes the load throw (`ScenarioLoader.CleanExact`).
* Packets from `TmBridge` never pass the ground parser (`TmBridge.HkRefusedByGround`): they have no P-Field and a
  reserved function code.

## Model

| member | source | states |
|---|---|---|
| Crc16.RunConcat | ros2_ws/src/rover_cryobot/src/hdlc_lite.cpp:12-26 | Running the CRC over a concatenation is running it over the second part from the state the first part leaves |
| Crc16.RunLinear | ros2_ws/src/rover_cryobot/src/hdlc_lite.cpp:12-26 | The CRC register is linear over GF(2) in initial value and message together, so the CRC is affine in the message |
| Crc16.RunInjective | ros2_ws/src/rover_cryobot/src/hdlc_lite.cpp:12-26 | Register states that differ stay different over any common continuation |
| Crc16.WindowInjective | ros2_ws/src/rover_cryobot/src/hdlc_lite.cpp:12-26 | From one state, two different windows of up to 16 bits never lead to the same state |
| Crc16.RunIsShifts | ros2_ws/src/rover_cryobot/src/hdlc_lite.cpp:15-24 | XORing up to 16 message bits in at the top and then shifting, as the loop does by bytes, equals taking them in one at a time |
| Crc16.ZeroResidue | ros2_ws/src/rover_cryobot/src/hdlc_lite.cpp:142-153 | A message followed by two bytes has CRC zero exactly when they are its own CRC, most significant byte first |
| Crc16.PaddedResidue | simulation/fault_injector/src/spp_encoder.cpp:7-26 | A message with its CRC and any number of zero bytes after it has CRC zero |
| Crc16.BurstDetected | ros2_ws/src/rover_cryobot/src/hdlc_lite.cpp:12-26 | Messages of any length that differ only within 16 consecutive bits have different CRCs |
| Crc16.RunDivides | ros2_ws/src/rover_cryobot/src/hdlc_lite.cpp:12-26 | The dividend polynomial is a multiple of x^16+x^12+x^5+1 plus the register |
| Crc16.CrcIsRemainder | ros2_ws/src/rover_cryobot/src/hdlc_lite.cpp:12-26 | A word is the CRC of a message if and only if it is the remainder of the complemented, shifted message polynomial modulo the generator |
| CrcLoop.LoadStep | apps/sim_adapter/fsw/src/sim_adapter.c:168-191 | One shift-and-XOR of the 16-bit word is one step of the polynomial register |
| CrcLoop.LoadXorTop | apps/mcu_eps_gw/fsw/src/mcu_eps_gw.c:214-236 | XORing bits into the top of the word adds them to the top coefficients of the register |
| CrcLoop.ByteAtTopBits | apps/mcu_eps_gw/fsw/src/mcu_eps_gw.c:214-236 | The message byte shifted left by 8 holds the byte's bits at the top of the word, most significant first |
| CrcLoop.WordValue | apps/mcu_eps_gw/fsw/src/mcu_eps_gw.c:214-236 | Read as a number, the machine word is the word of the register it stands for |
| CrcLoop.SpellMsb | apps/mcu_eps_gw/fsw/src/mcu_eps_gw.c:214-236 | A machine word is determined by its bits: spelling out its bits gives it back |
| CrcLoop.Compute | ros2_ws/src/rover_cryobot/src/hdlc_lite.cpp:12-26 | The nested byte and bit loop on the 16-bit word, with its shifts and XORs, computes the CRC of the polynomial specification, for every message |
| CrcDifference.CheckValue | docs/interfaces/ICD-cryobot-tether.md:88-88 | The CRC of the digits "123456789" is the documented 0x29B1 |
| Gf2.RemainderUnique | ros2_ws/src/rover_cryobot/src/hdlc_lite.cpp:12-26 | Division by a polynomial of degree n leaves one remainder of degree below n, so "the" remainder is meaningful |
| HdlcLite.StuffHidesFlag | ros2_ws/src/rover_cryobot/src/hdlc_lite.cpp:30-41 | No flag byte occurs in stuffed data |
| HdlcLite.UnstuffExact | ros2_ws/src/rover_cryobot/src/hdlc_lite.cpp:97-122 | Unstuffing yields a body if and only if the input is the stuffing of that body |
| HdlcLite.StuffInjective | ros2_ws/src/rover_cryobot/src/hdlc_lite.cpp:30-41 | Different bodies are stuffed differently |
| HdlcLite.StuffBody | ros2_ws/src/rover_cryobot/src/hdlc_lite.cpp:74-84 | The stuffing loop writes flag, stuffed body, flag |
| HdlcLite.BuildBody | ros2_ws/src/rover_cryobot/src/hdlc_lite.cpp:59-72 | The body is mode, low 16 bits of the payload size, payload, and the big-endian CRC of those |
| HdlcLite.Encode | ros2_ws/src/rover_cryobot/src/hdlc_lite.cpp:45-85 | Encoding fails exactly over the limit of a named mode and otherwise returns the frame |
| HdlcLite.Decode | ros2_ws/src/rover_cryobot/src/hdlc_lite.cpp:89-156 | The decoding loop with its escape flag returns what unstuffing and then checking length and CRC return, None on every failure |
| HdlcLite.AcceptedBody | ros2_ws/src/rover_cryobot/src/hdlc_lite.cpp:124-155 | An unstuffed body that is accepted is the one the encoder builds for its mode and payload |
| HdlcLite.AcceptsBody | ros2_ws/src/rover_cryobot/src/hdlc_lite.cpp:124-155 | Every body built for up to 65535 payload bytes is accepted with that payload |
| HdlcLite.DecodeExact | ros2_ws/src/rover_cryobot/src/hdlc_lite.cpp:89-156 | A wire decodes to a payload if and only if it is, byte for byte, an encoder frame of that payload in some mode and the payload has at most 65535 bytes |
| HdlcLite.RoundTrip | ros2_ws/src/rover_cryobot/src/hdlc_lite.cpp:45-156 | Decoding what was encoded gives the payload back exactly when its size fits the 16-bit length, and nothing otherwise |
| HdlcLite.WireLength | ros2_ws/src/rover_cryobot/src/hdlc_lite.cpp:70-84 | A frame has payload size plus 7 plus one byte for each flag or escape in its body |
| HdlcLite.StuffBytes | ros2_ws/src/rover_cryobot/src/hdlc_lite.cpp:30-41 | Stuffing goes byte by byte: 7E becomes 7D 5E, 7D becomes 7D 5D, every other byte stays |
| HdlcLite.FrameBytes | ros2_ws/src/rover_cryobot/src/hdlc_lite.cpp:74-84 | A frame is 7E, its stuffed body without any 7E, and 7E |
| HdlcLite.BodyBytes | ros2_ws/src/rover_cryobot/src/hdlc_lite.cpp:59-72 | Byte 0 of a body is the mode, bytes 1 and 2 the low 16 bits of the payload size, high byte first, then the payload, then the CRC of all before it, high byte first |
| HdlcLite.DecodeBytes | ros2_ws/src/rover_cryobot/src/hdlc_lite.cpp:124-155 | A stuffed body decodes if and only if it has at least 5 bytes, bytes 1 and 2 are its size less 5, high byte first, and its CRC is zero; to the bytes between them and the last two |
| HdlcLite.LimitsExact | ros2_ws/src/rover_cryobot/src/hdlc_lite.cpp:49-57 | Encoding fails for more than 240 bytes in mode 0 and more than 80 in mode 1, and never otherwise |
| HdlcLite.FrameInjective | ros2_ws/src/rover_cryobot/src/hdlc_lite.cpp:45-85 | Two frames are equal if and only if mode and payload are |
| HdlcLite.AcceptedResidue | ros2_ws/src/rover_cryobot/src/hdlc_lite.cpp:142-153 | A body that passes the CRC check has CRC zero over all its bytes |
| HdlcLite.BurstRejected | ros2_ws/src/rover_cryobot/src/hdlc_lite.cpp:142-153 | A frame body changed anyhow within 16 consecutive bits, re-stuffed, is not decoded |
| HdlcLite.AdjacentBytesRejected | ros2_ws/src/rover_cryobot/src/hdlc_lite.cpp:142-153 | A frame body changed in one byte or in two adjacent bytes, be they mode, length, payload or CRC, is not decoded |
| HdlcLite.FlagsAtEndsOnly | ros2_ws/src/rover_cryobot/src/hdlc_lite.cpp:74-84 | In every frame the encoder can write, decodable or not, the flag byte stands at the two ends and nowhere else |
| HdlcLite.StreamUnambiguous | ros2_ws/src/rover_cryobot/src/hdlc_lite.cpp:74-84 | Two lists of frames that concatenate to the same byte stream are the same list |
| HdlcLite.PayloadsRecovered | ros2_ws/src/rover_cryobot/src/hdlc_lite.cpp:45-156 | However the stream of encoded frames is cut back into frames, decoding them gives the payloads sent, in order, save those over 65535 bytes |
| HdlcLite.SentRecovered | ros2_ws/src/rover_cryobot/src/hdlc_lite.cpp:45-85 | Equal streams of encoded frames were made from the same payloads in the same modes |
| EpsGateway.Unescape | apps/mcu_eps_gw/fsw/src/mcu_eps_gw.c:265-292 | The index-skipping loop stays in bounds, terminates and leaves in the fixed buffer the unescaped interior, or reports a dangling escape or an overflow exactly when there is one |
| EpsGateway.Validate | apps/mcu_eps_gw/fsw/src/mcu_eps_gw.c:246-311 | Each frame gets the verdict of the specification: format, length, CRC or success, in the order of the code |
| EpsGateway.ScanGrows | apps/mcu_eps_gw/fsw/src/mcu_eps_gw.c:265-292 | Stopping at the first byte over the buffer loses nothing: the unescaped length never shrinks again and never exceeds the interior |
| EpsGateway.UnstuffSteps | apps/mcu_eps_gw/fsw/src/mcu_eps_gw.c:265-292 | What one more interior byte, or an escape and the byte after it, adds; an escape at the end is refused |
| EpsGateway.FlipExact | apps/mcu_eps_gw/fsw/src/mcu_eps_gw.c:275-282 | The byte after an escape has bit 5 inverted and no other bit |
| EpsGateway.BodyVerdictExact | apps/mcu_eps_gw/fsw/src/mcu_eps_gw.c:294-310 | An unescaped body succeeds if and only if it is at least 3 bytes and ends in the little-endian CRC of the rest |
| EpsGateway.AcceptedExact | apps/mcu_eps_gw/fsw/src/mcu_eps_gw.c:246-311 | A frame is accepted if and only if flags delimit it and its interior unstuffs to 1 to 256 packet bytes and their little-endian CRC |
| EpsGateway.RefusedExact | apps/mcu_eps_gw/fsw/src/mcu_eps_gw.c:246-311 | Why every other frame is refused: too long over 258 unescaped bytes, a CRC mismatch from 3 to 258, a format error otherwise |
| EpsGateway.StrictUnstuffAgrees | apps/mcu_eps_gw/fsw/src/mcu_eps_gw.c:265-292 | On every interior the strict tether unstuffer accepts, this unstuffer yields the same body |
| EpsGateway.WireVerdict | apps/mcu_eps_gw/fsw/src/mcu_eps_gw.c:246-311 | A strictly stuffed body of up to 258 bytes is judged by length and CRC alone; a longer one is too long |
| EpsGateway.AcceptsStuffed | apps/mcu_eps_gw/fsw/src/mcu_eps_gw.c:246-311 | Every packet of 1 to 256 bytes with its little-endian CRC, stuffed and delimited, is accepted |
| EpsGateway.TetherFrameVerdict | apps/mcu_eps_gw/fsw/src/mcu_eps_gw.c:246-311 | A tether frame is accepted on this bus if and only if it has at most 253 payload bytes and the two bytes of its CRC are equal |
| EpsGateway.Gateway.constructor | apps/mcu_eps_gw/fsw/src/mcu_eps_gw.c:124-127 | All counters start at zero, the frame buffer holds 514 bytes |
| EpsGateway.Gateway.PollAndPublish | apps/mcu_eps_gw/fsw/src/mcu_eps_gw.c:140-186 | One poll changes the counters and the published packets as the monitor step does for its outcome |
| EpsGateway.Gateway.DrainPipe | apps/mcu_eps_gw/fsw/src/mcu_eps_gw.c:61-78 | A failed read of the command pipe counts as an error; a timeout or a command changes nothing |
| EpsGateway.Gateway.RunCycles | apps/mcu_eps_gw/fsw/src/mcu_eps_gw.c:59-82 | A run of the application loop, a pipe read and a poll each time, ends in the monitor state of its outcomes, so the run lemmas of `BusMonitor` apply |
| EpsGateway.OutcomesExact | apps/mcu_eps_gw/fsw/src/mcu_eps_gw.c:140-186 | Poll k of a run counts as valid if and only if it received a frame delimited by 7E that carries a packet of 1 to 256 bytes with its CRC, low byte first; as corrupt if and only if it received any other frame; failed and quiet polls as themselves |
| EpsGateway.GatewayPublishes | apps/mcu_eps_gw/fsw/src/mcu_eps_gw.c:59-186 | Over any run one packet is published for each such frame, with the numbers of deliveries, refusals and errors up to it, and no other poll publishes |
| CrcDifference.RunDiff | apps/mcu_eps_gw/fsw/src/mcu_eps_gw.c:214-236 | The registers of two messages of one length differ by their difference, run from a clear register |
| CrcDifference.SixteenShifts | apps/mcu_eps_gw/fsw/src/mcu_eps_gw.c:214-236 | Sixteen steps of the bit loop are four steps of a closed form that takes four bits at a time |
| CrcDifference.RunWord | apps/mcu_eps_gw/fsw/src/mcu_eps_gw.c:214-236 | What 16 message bits make of a clear register, as a function of machine words |
| EpsCorruption.AcceptedTrailer | apps/mcu_eps_gw/fsw/src/mcu_eps_gw.c:294-310 | A body of at least 3 bytes succeeds if and only if its trailer bits are the register of the packet with its bytes swapped |
| EpsCorruption.ChangeExact | apps/mcu_eps_gw/fsw/src/mcu_eps_gw.c:294-310 | Any change of an accepted body, anywhere, passes if and only if the trailer differs by the byte-swapped CRC of the packets' difference from a clear register |
| EpsCorruption.OnlyThese | apps/mcu_eps_gw/fsw/src/mcu_eps_gw.c:214-236 | Among the differences of two packet bytes and two trailer bytes that cancel and fit a 16-bit window, there are none but the twelve |
| EpsCorruption.BodyBurstExact | apps/mcu_eps_gw/fsw/src/mcu_eps_gw.c:294-310 | A change of an accepted body within 16 consecutive bits, wherever they lie, passes if and only if it is one of the twelve |
| EpsCorruption.BurstExact | apps/mcu_eps_gw/fsw/src/mcu_eps_gw.c:246-311 | The same of frames: change the body of an accepted frame within 16 consecutive bits, stuff it again, and it is accepted if and only if the change is one of the twelve |
| EpsCorruption.AdjacentChangeExact | apps/mcu_eps_gw/fsw/src/mcu_eps_gw.c:246-311 | A change of one byte or of two adjacent bytes is accepted if and only if it is 0x89 in the last packet byte with 0xA1 in the first trailer byte |
| EpsCorruption.EveryFrameEvaded | apps/mcu_eps_gw/fsw/src/mcu_eps_gw.c:246-311 | Each of the twelve is a change within 16 consecutive bits that is accepted in every accepted frame, the four that take two packet bytes in every frame that has them |
| BusMonitor.CountersExact | apps/mcu_eps_gw/fsw/src/mcu_eps_gw.c:59-186 | After any run of the application loop, valid and corrupt counters are the numbers of such polls, the error counter that of corrupt frames, bus errors and failed pipe reads, all modulo 2^32 |
| BusMonitor.PublishedExact | apps/mcu_eps_gw/fsw/src/mcu_eps_gw.c:140-186 | Each valid frame publishes exactly one packet, with all three counters of the run up to it; nothing else publishes |
| BusMonitor.FramesAccounted | apps/mcu_rwa_gw/fsw/src/mcu_rwa_gw.c:140-185 | Valid and corrupt counters together are the number of polls that delivered a frame, modulo 2^32 |
| BusMonitor.SilenceExact | apps/mcu_rwa_gw/fsw/src/mcu_rwa_gw.c:171-184 | Since the last valid frame, one silence event was raised for every three polls, and the counter holds the remainder |
| RwaGateway.Gateway.constructor | apps/mcu_rwa_gw/fsw/src/mcu_rwa_gw.c:123-127 | No assembly in progress, all counters zero |
| RwaGateway.Gateway.ValidateCanFrame | apps/mcu_rwa_gw/fsw/src/mcu_rwa_gw.c:217-253 | The verdict of a CAN frame given the assembly flag, and the flag it leaves |
| RwaGateway.Gateway.PollAndPublish | apps/mcu_rwa_gw/fsw/src/mcu_rwa_gw.c:140-185 | One poll changes counters, published packets and assembly flag as specified; a corrupt frame ends an assembly |
| RwaGateway.Gateway.DrainPipe | apps/mcu_rwa_gw/fsw/src/mcu_rwa_gw.c:63-79 | A failed read of the command pipe counts as an error; a timeout or a command changes nothing |
| RwaGateway.Gateway.RunCycles | apps/mcu_rwa_gw/fsw/src/mcu_rwa_gw.c:61-82 | A run of the application loop ends in the monitor state of its outcomes |
| RwaGateway.InProgressExact | apps/mcu_rwa_gw/fsw/src/mcu_rwa_gw.c:140-185 | The assembly flag is set if and only if a First-Frame came earlier with only First- or Consecutive-Frames, quiet polls and bus errors since |
| RwaGateway.ConsecutiveExact | apps/mcu_rwa_gw/fsw/src/mcu_rwa_gw.c:217-253 | At any point of any run a Consecutive-Frame is accepted if and only if that holds |
| RwaGateway.OtherOutcomes | apps/mcu_rwa_gw/fsw/src/mcu_rwa_gw.c:217-253 | The outcome of every other poll does not depend on the run before it |
| RwaGateway.OutcomesExact | apps/mcu_rwa_gw/fsw/src/mcu_rwa_gw.c:140-185 | Poll k of a run counts as valid if and only if its frame starts with 0, or has upper type digit 1, or upper type digit 2 with an assembly started; as corrupt for every other frame |
| RwaGateway.GatewayPublishes | apps/mcu_rwa_gw/fsw/src/mcu_rwa_gw.c:61-185 | Over any run one packet is published for each accepted frame, with the numbers of acceptances, refusals and errors up to it, and no other poll publishes |
| OrbiterComm.App.constructor | apps/orbiter_comm/fsw/src/orbiter_comm.c:183-207 | Link down, counters zero, default rates |
| OrbiterComm.App.ProcessGroundCommand | apps/orbiter_comm/fsw/src/orbiter_comm.c:272-370 | Any ground command raises the link and clears the idle counter; each code changes exactly the specified fields |
| OrbiterComm.App.EmitAosFrame | apps/orbiter_comm/fsw/src/orbiter_comm.c:396-403 | A datagram is sent as it is, unless it is larger than a frame |
| OrbiterComm.App.SendHkPacket | apps/orbiter_comm/fsw/src/orbiter_comm.c:408-440 | A housekeeping request advances the saturating idle counter, may drop the link, publishes a snapshot, and emits that snapshot only while the link is up |
| OrbiterComm.App.ForwardRoverHk | apps/orbiter_comm/fsw/src/orbiter_comm.c:450-463 | The first 1024 bytes of a rover packet are emitted, only while the link is up, and nothing else changes |
| OrbiterComm.App.ProcessMessage | apps/orbiter_comm/fsw/src/orbiter_comm.c:235-267 | The dispatcher takes the step of the message it got; unknown messages count as errors |
| OrbiterComm.App.ProcessAll | apps/orbiter_comm/fsw/src/orbiter_comm.c:71-86 | A run of the application loop from the start ends in the state of its trace |
| OrbiterComm.LinkExact | apps/orbiter_comm/fsw/src/orbiter_comm.c:272-440 | After any trace the link is up if and only if some ground command arrived and fewer than 10 housekeeping requests followed the last one; the idle counter is the number of those requests, saturated at 2^32-1 |
| OrbiterComm.EmittedExact | apps/orbiter_comm/fsw/src/orbiter_comm.c:396-463 | The datagrams emitted over a trace are exactly the housekeeping of each request and the bytes of each rover packet, cut to 1024, that came while the link was up, in order; none exceeds 1024 bytes |
| OrbiterComm.SnapshotExact | apps/orbiter_comm/fsw/src/orbiter_comm.c:408-440 | The housekeeping after a trace is the link state, the rates last accepted, the counts since the last reset and the last probe of that trace |
| OrbiterComm.PublishedExact | apps/orbiter_comm/fsw/src/orbiter_comm.c:408-440 | Each housekeeping request publishes exactly one packet, with the housekeeping of the trace up to it |
| OrbiterComm.ProbeExact | apps/orbiter_comm/fsw/src/orbiter_comm.c:346-360 | The echoed probe is that of the last time-correlation command |
| OrbiterComm.RatesExact | apps/orbiter_comm/fsw/src/orbiter_comm.c:272-370 | Each channel has the last rate accepted for it, or its default, never above 1000 |
| OrbiterComm.CountersExact | apps/orbiter_comm/fsw/src/orbiter_comm.c:235-370 | Command and error counters are the accepted commands and the faults since the last reset, modulo 2^32 |
| CcsdsWire.EncodePrimary | rust/ccsds_wire/src/primary.rs:145-168 | The six bytes written are those of the layout |
| CcsdsWire.PrimaryLayout | rust/ccsds_wire/src/primary.rs:145-168 | Which header bits hold version, type, flags, APID, count and length |
| CcsdsWire.PrimaryExact | rust/ccsds_wire/src/primary.rs:191-234 | A buffer decodes to a header if and only if it starts with that header's encoding |
| CcsdsWire.PrimaryCanonical | rust/ccsds_wire/src/primary.rs:191-234 | Whatever decodes is the encoding of what it decodes to |
| CcsdsWire.PrimaryRoundTrip | rust/ccsds_wire/src/primary.rs:145-234 | Every encoded header decodes to itself, whatever follows it |
| CcsdsWire.EncodeCuc | rust/ccsds_wire/src/cuc.rs:63-94 | The seven bytes written are the P-Field and the big-endian coarse and fine time |
| CcsdsWire.CucExact | rust/ccsds_wire/src/cuc.rs:63-94 | A buffer decodes to a time if and only if it starts with that time's encoding |
| CcsdsWire.EncodeSecondary | rust/ccsds_wire/src/secondary.rs:134-148 | The ten bytes written are time, function code, instance |
| CcsdsWire.SecondaryExact | rust/ccsds_wire/src/secondary.rs:163-182 | A buffer decodes to a secondary header if and only if it starts with that header's encoding; reserved codes never decode |
| CcsdsWire.ParseExact | rust/ccsds_wire/src/packet.rs:65-94 | A buffer parses to a packet if and only if it is the packet's encoding and the declared length is its own |
| CcsdsWire.ParseAccepts | rust/ccsds_wire/src/packet.rs:65-88 | Which byte patterns parse, as conditions on nine bytes and the length |
| CcsdsWire.ParseFields | rust/ccsds_wire/src/packet.rs:65-88 | Which bytes each field of a parsed packet comes from, and with which weight |
| CcsdsWire.ParseErrors | rust/ccsds_wire/src/packet.rs:65-88 | Which error every other buffer gives: that of the first check it fails |
| CcsdsWire.Build | rust/ccsds_wire/src/builder.rs:106-147 | Building returns the packet described by the builder, or the error of the first check that fails |
| CcsdsWire.BuildSucceeds | rust/ccsds_wire/src/builder.rs:106-147 | Building succeeds if and only if function code and instance are set and user data has at most 65526 bytes; otherwise with the error of the first of these that fails |
| CcsdsWire.ParseBuild | rust/ccsds_wire/src/builder.rs:106-147 | What is built parses to exactly the builder's fields |
| CcsdsWire.BuildFields | rust/ccsds_wire/src/builder.rs:106-147 | Each field of the parsed result is the builder's own; the sequence count is 0 if none was set |
| CcsdsWire.BuildInjective | rust/ccsds_wire/src/builder.rs:106-147 | Two builders write the same bytes if and only if they describe the same packet |
| CfsBindings.ReencodeIdentity | rust/cfs_bindings/src/convert.rs:34-65 | Every buffer that converts to a message re-encodes to the identical bytes; every other fails with the parser's error |
| SppEncoder.EncodeHeader | simulation/fault_injector/src/spp_encoder.cpp:44-64 | The header is written at the start of the buffer and the rest of the buffer is left alone |
| SppEncoder.EncodeSecondaryHeader | simulation/fault_injector/src/spp_encoder.cpp:35-42 | The fixed secondary header is appended and nothing else changes |
| SppEncoder.PutBe32 | simulation/fault_injector/src/spp_encoder.cpp:74-80 | A 32-bit value is written big-endian at its place and nothing else changes |
| SppEncoder.AppendCrc | simulation/fault_injector/src/spp_encoder.cpp:99-100 | The CRC of the payload in the buffer is put right after it |
| SppEncoder.EncodePacketDrop | simulation/fault_injector/src/spp_encoder.cpp:82-103 | With room for 1016 bytes the buffer starts with the packet and keeps the rest; without, nothing is written and 0 returned |
| SppEncoder.EncodeClockSkew | simulation/fault_injector/src/spp_encoder.cpp:105-129 | As above, for clock-skew faults with signed fields in two's complement |
| SppEncoder.EncodeSafeMode | simulation/fault_injector/src/spp_encoder.cpp:131-151 | As above, for safe-mode faults |
| SppEncoder.EncodeSensorNoise | simulation/fault_injector/src/spp_encoder.cpp:153-182 | As above, for sensor-noise faults |
| SppEncoder.SppParses | simulation/fault_injector/src/spp_encoder.cpp:35-182 | The ground parser accepts every fault packet, as telemetry with APID 0x540 plus the fault type, the given count, function code 0x0100 and instance 1 |
| SppEncoder.HeaderDecodes | simulation/fault_injector/src/spp_encoder.cpp:44-64 | The Rust decoder reads the low 11 bits of the APID, the low 14 bits of the count and the length back from the encoder's header |
| SppEncoder.SppNumbers | simulation/fault_injector/src/spp_encoder.cpp:82-182 | A fault packet has 1016 bytes, APID 0x540 to 0x543 by fault type, declared length 1009, time 0, code 0x0100, instance 1, and zeros after its payload and CRC |
| SppEncoder.ReportRecovered | docs/interfaces/packet-catalog.md:623-699 | Parsing a fault packet and reading the catalogued offsets gives back the fault type and every field of the event, with a matching payload CRC |
| SimAdapter.Adapter.constructor | apps/sim_adapter/fsw/src/sim_adapter.c:142-144 | All counters start at zero |
| SimAdapter.Adapter.ProcessUdp | apps/sim_adapter/fsw/src/sim_adapter.c:206-262 | The length, APID and CRC gates in order, and which one counter each outcome advances |
| SimAdapter.GateExact | apps/sim_adapter/fsw/src/sim_adapter.c:206-256 | Which gate stops a datagram: under 18 bytes; APID outside 0x500 to 0x57F; CRC of bytes 16 on against the last two, high byte first |
| SimAdapter.RoutedExact | apps/sim_adapter/fsw/src/sim_adapter.c:206-256 | A datagram passes if and only if its APID is in the block and the bytes covered, with the trailer, have CRC zero; up to 65553 bytes those are all bytes after the header |
| SimAdapter.FaultPacketRouted | apps/sim_adapter/fsw/src/sim_adapter.c:206-256 | Every fault packet, with any fields and any count, passes all gates |
| FaultInjector.FrameResidue | simulation/fault_injector/src/fault_injector.cpp:348-352 | Every frame has CRC zero over its 1024 bytes |
| FaultInjector.FrameHeader | simulation/fault_injector/src/fault_injector.cpp:333-342 | Every frame has 1024 bytes and the header of version 1, spacecraft 42, channel 0, the 24-bit frame count, and zero |
| FaultInjector.FramePadding | simulation/fault_injector/src/fault_injector.cpp:344-346 | Byte for byte, the data field is the packet, cut to 1016 bytes or followed by zeros |
| FaultInjector.FrameParses | simulation/fault_injector/src/fault_injector.cpp:329-355 | The data field of a fault frame parses as the packet of that fault |
| FaultInjector.AdapterNeedsBarePacket | apps/sim_adapter/fsw/src/sim_adapter.c:206-256 | The adapter routes the packet inside every fault frame and refuses every frame itself at the APID gate |
| FaultInjector.Injector.constructor | simulation/fault_injector/include/fault_injector.h:117-124 | Counters zero, socket closed, nothing sent |
| FaultInjector.Injector.SendAsAosFrame | simulation/fault_injector/src/fault_injector.cpp:329-355 | With the socket open one frame around the packet is sent and the frame count advances modulo 2^24; otherwise nothing changes |
| FaultInjector.Injector.BuildFrame | simulation/fault_injector/src/fault_injector.cpp:333-352 | The buffer writes add up to header, packet cut or padded to 1016 bytes, and their CRC |
| FaultInjector.Injector.EmitSpp | simulation/fault_injector/src/fault_injector.cpp:272-316 | The count of the fault's type advances modulo 16384 and its packet is sent with the old count |
| FaultInjector.Injector.Start | simulation/fault_injector/src/fault_injector.cpp:203-246 | Whatever the state before, the socket is open afterwards, and success returned, if and only if creating, resolving and connecting all succeed; the other failures close it again |
| FaultInjector.Injector.Stop | simulation/fault_injector/src/fault_injector.cpp:263-270 | The socket is closed afterwards, open or not before |
| FaultInjector.Injector.Tick | simulation/fault_injector/src/fault_injector.cpp:248-261 | A tick emits the pending faults whose offset it reaches, in scenario order, and marks exactly those |
| FaultInjector.Injector.RunAll | simulation/fault_injector/src/fault_injector.cpp:203-355 | Any sequence of starts, stops and ticks leaves the socket, the marks, the counters and the frames sent of the specification |
| FaultInjector.MarkAllExact | simulation/fault_injector/src/fault_injector.cpp:248-261 | After a run a fault is marked if and only if it was before or some tick reached its offset; nothing else about it changes |
| FaultInjector.EmissionsExact | simulation/fault_injector/src/fault_injector.cpp:248-261 | A fault is consumed over a run if and only if it was pending and some tick reached its offset: at the first such tick, with the socket as it was then |
| FaultInjector.EmissionsOrdered | simulation/fault_injector/src/fault_injector.cpp:248-261 | Faults are consumed in the order of the first tick that reaches them, then of the scenario; none twice |
| FaultInjector.RunSendsOnce | simulation/fault_injector/src/fault_injector.cpp:203-355 | Over any sequence of starts, stops and ticks each pending fault that is reached is consumed exactly once, every other never; its frame is sent if and only if the socket was open at the first tick that reached it |
| FaultInjector.ProgramSendsAll | simulation/fault_injector/src/main.cpp:55-76 | In the program's run, a successful start, ticks and a stop, every pending fault that is reached gives its frame |
| FaultInjector.CountersExact | simulation/fault_injector/src/fault_injector.cpp:272-355 | After a run each type's count is its start plus the faults of that type consumed, modulo 16384, and the frame count its start plus the frames sent, modulo 2^24 |
| FaultInjector.SentExact | simulation/fault_injector/src/fault_injector.cpp:272-355 | The frames sent are one for each fault consumed with the socket open, in order, and no others |
| FaultInjector.SentAt | simulation/fault_injector/src/fault_injector.cpp:272-355 | The frame of a fault consumed with the socket open stands after the earlier ones, with that frame count and the count start plus earlier faults of its type |
| FaultInjector.NthFrameAccepted | simulation/fault_injector/src/fault_injector.cpp:272-355 | The frame of each fault has that header with its frame count, CRC zero, and a packet that parses with its sequence count, yields every field of the fault, and passes the adapter |
| FaultInjector.SentFrames | simulation/fault_injector/src/fault_injector.cpp:272-355 | Over any emissions, each fault consumed with the socket open is sent as such a frame, after the earlier ones, with the number of earlier frames modulo 2^24 and of earlier faults of its type modulo 16384 added to the starting counts |
| FaultInjector.OpenExact | simulation/fault_injector/src/fault_injector.cpp:203-270 | Over any run the socket is open if and only if the last start or stop was a start whose three calls succeeded |
| ScenarioLoader.Loader.constructor | simulation/fault_injector/include/fault_injector.h:117-124 | Empty name, no faults |
| ScenarioLoader.Loader.LoadScenario | simulation/fault_injector/src/fault_injector.cpp:69-201 | The line loop with its open fault ends with the specified faults and name, or at the first line that stops it, with what was complete by then |
| ScenarioLoader.SetGet | simulation/fault_injector/src/fault_injector.cpp:123-185 | Assigning one field changes that field, to the converted value, and no other |
| ScenarioLoader.FieldTable | simulation/fault_injector/src/fault_injector.cpp:123-185 | For each of the fourteen fields, which numbers are taken and what is stored of them |
| ScenarioLoader.StartsComplete | simulation/fault_injector/src/fault_injector.cpp:108-121 | Every "- type:" line starts a fault |
| ScenarioLoader.FaultsBuilt | simulation/fault_injector/src/fault_injector.cpp:69-201 | Fault i is what the lines from its start to the next start, or to the end of the file, make of a fresh fault |
| ScenarioLoader.BuiltFields | simulation/fault_injector/src/fault_injector.cpp:123-185 | Each field of it is the last value assigned in those lines, or zero |
| ScenarioLoader.LoadIsSplit | simulation/fault_injector/src/fault_injector.cpp:69-201 | A clean file gives one fault per "- type:" line in file order, the last included, each field the last value before the next such line |
| ScenarioLoader.LoadedFault | simulation/fault_injector/src/fault_injector.cpp:69-201 | The same, for each component of the fault record by name |
| ScenarioLoader.CleanExact | simulation/fault_injector/src/fault_injector.cpp:69-201 | A file is clean if and only if every "- type:" line names a known fault and no field line after the first of them fails to convert |
| TmBridge.Bridge.constructor | ros2_ws/src/rover_common/src/tm_bridge.cpp:29-32 | The APID is cut to 11 bits, the count starts at zero |
| TmBridge.Bridge.PackHk | ros2_ws/src/rover_common/src/tm_bridge.cpp:34-88 | A payload of up to 65526 bytes gives its packet with the current count, which advances modulo 16384; a larger one gives nothing and keeps the count |
| TmBridge.Bridge.ResetSeq | ros2_ws/src/rover_common/src/tm_bridge.cpp:90-93 | The count becomes the low 14 bits of the argument |
| TmBridge.HkHeader | ros2_ws/src/rover_common/src/tm_bridge.cpp:43-87 | The Rust primary decoder accepts every packed packet with the bridge's APID and count; its size is the declared length plus 7; coarse time, fine time, three zeros and the payload follow, high byte first |
| TmBridge.HkRefusedByGround | rust/ccsds_wire/src/packet.rs:65-88 | The full Rust parser refuses every packed packet, and with which error |
| TmBridge.PackHkSequence | ros2_ws/src/rover_examples/src/tm_bridge_example.cpp:23-39 | One packet per payload that fits, in input order, counted 0, 1, 2, ... modulo 16384 |
| TmBridge.FittingOrder | ros2_ws/src/rover_examples/src/tm_bridge_example.cpp:32-37 | Every payload of at most 65526 bytes has its packet, after those of the fitting payloads before it, and there are no others |
| Tether.Client.constructor | ros2_ws/src/rover_cryobot/src/tether_client.cpp:6-9 | A fresh bridge with the given APID |
| Tether.Client.PackAndFrame | ros2_ws/src/rover_cryobot/src/tether_client.cpp:11-28 | The frame of the packed packet, or nothing; the count advances even when the frame is dropped for size |
| Tether.Client.PackAll | ros2_ws/src/rover_cryobot/src/tether_client.cpp:11-28 | In any run, call k returns its result with the number of earlier calls whose payload fit a packet, modulo 16384, as count |
| Tether.NonEmptyExact | ros2_ws/src/rover_cryobot/src/tether_client.cpp:11-28 | A frame comes out if and only if payload and packet are within limits: in the two named modes, 16 plus the payload at most 240 or 80 bytes |
| Tether.FrameDecodes | ros2_ws/src/rover_cryobot/src/tether_client.cpp:11-28 | A returned frame decodes to the packed packet if and only if the payload has at most 65519 bytes |
| Tether.NamedModesDecode | ros2_ws/src/rover_cryobot/src/tether_client.cpp:11-28 | In the two named modes every payload within the limit gives a frame, and it decodes to the packed packet |
| Tether.RunDelivers | ros2_ws/src/rover_cryobot/src/tether_client.cpp:11-28 | Over any run, call k returns a frame if and only if it is within the limits; the frame's first body byte is the mode, and up to 65519 payload bytes it decodes to a packet with the bridge's APID, the number of earlier fitting calls modulo 16384 as count, the call's coarse and fine time and its payload |
| TimeStamp.FineFits | ros2_ws/src/fleet_monitor/src/fleet_monitor_node.cpp:135-140 | The fine time fits 24 bits |
| TimeStamp.StampInPacket | ros2_ws/src/rover_common/src/tm_bridge.cpp:67-77 | The first seven bytes of the packed time field are the stamp |
| TimeStamp.StampNumber | ros2_ws/src/fleet_monitor/src/fleet_monitor_node.cpp:135-140 | Read as one number, the stamp is the time in units of 2^-24 s |
| TimeStamp.LexIsNumeric | ros2_ws/src/rover_common/src/tm_bridge.cpp:67-77 | For byte strings of equal length, lexicographic order is numeric order |
| TimeStamp.StampMonotone | ros2_ws/src/fleet_monitor/src/fleet_monitor_node.cpp:135-140 | Below 2^32 s, stamps never compare against the order of their times |
| TimeStamp.StampPrecision | ros2_ws/src/fleet_monitor/src/fleet_monitor_node.cpp:135-140 | Below 2^32 s, a stamp recovers its time with an error from 0 to below 60 ns |

## Left out

- Sockets, the OSAL and cFE calls, event texts, task loops, ROS 2 lifecycle and DDS: what is sent or published is a trace, what a call returned is a parameter.
- COP-1, CFDP, the M-File assembler, the AOS framer, the demultiplexer and the router: their source is not part of this model.
- `orbiter_cdh`, `orbiter_power`, `orbiter_payload`, `sample_app`: command dispatchers that set modes and load states; they neither frame, check nor number packets, which is what this model is about.
- `mcu_payload_gw`: the third bus gateway, with the bookkeeping of `BusMonitor` and one end-of-packet marker as its whole validation.
- `ros2_bridge`: forwards datagrams by APID to the software bus.
- The APID and MID types beyond the range checks the codecs use, and the frontend, which is user interface.
- Corruption of stuffed bytes on the wire: a flip into or out of an escape changes the length of the body. Error detection is stated on unstuffed bodies.
- Whether every 256-byte packet's frame fits the power gateway's 514-byte buffer: in the worst case it does not (2 * 258 + 2 = 518); the model says what the validator does with the bytes it gets.
- The CFDP table and the byte totals of the orbiter's housekeeping, the rover ages in the fleet monitor's payload, uptime and time-suspect fields: constants or inputs the code never decides on.
- The payload the simulation adapter routes: the code publishes a fixed message in its place.
- ScenarioLoader.Loader.LoadScenario: does not model splitting text into key and value, nor failing to open the file; a line is a token, a number is absent if the text does not start with one.
- ScenarioLoader.Loader.LoadScenario: offsets are real numbers; NaN and infinities are not modelled, nor the range error of a double.
- FaultInjector.Injector.Tick: simulation times are real numbers, as the code only compares them; NaN is not modelled.
- FaultInjector.Injector.SendAsAosFrame: whether the network takes the frame is not modelled, as the code ignores it.
- EpsGateway.Gateway.PollAndPublish: the bus driver is assumed to report no more bytes than the frame buffer holds.
- TimeStamp.StampMonotone: times before zero are not modelled; at 2^32 s the coarse time wraps and the order is lost.
