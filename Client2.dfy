/** The live driver's operations over the packet engine: TCK normalisation,
    the TRST pin, TAP state moves, run-test, the IR and DR scans, scan
    dispatch and the serial-prefix match of enumeration. Each operation is
    specified by a function over `Snapshot`s; each method is proved to follow
    its function, and the lemmas state what the functions promise. */
module Client2 {
  import opened Bytes
  import opened Api2
  import opened Wire
  import opened Hid
  import opened Transaction
  import opened Engine

  /** OpenOCD's generic failure code. */
  const ERROR_FAIL: int := -4

  /** The TCK used when the caller asks for "the fastest good one". */
  const DEFAULT_TCK_MHZ: int := 12

  const HZ_PER_MHZ: int := 1_000_000

  // ---------------------------------------------------------------------------
  // TCK normalisation

  /** C's signed `/`: the quotient rounded toward zero. */
  function CDiv(a: int, b: int): (q: int)
    requires b > 0
    ensures 0 <= a ==> 0 <= q * b <= a < q * b + b
    ensures a < 0 ==> q * b - b < a <= q * b <= 0
  {
    if a >= 0 then
      DivBounds(a, b);
      a / b
    else
      DivBounds(-a, b);
      NegMul(a / b, b);
      -((-a) / b)
  }

  lemma DivBounds(a: nat, b: int)
    requires b > 0
    ensures 0 <= (a / b) * b <= a < (a / b) * b + b
  {
    assert a == b * (a / b) + a % b;
  }

  lemma NegMul(x: int, b: int)
    ensures (-x) * b == -(x * b)
  {
  }

  /** The MHz value the driver sends for a requested TCK in Hz: the magic
      values -1 and 0 mean the default, anything else is truncated to whole
      MHz. The 4-20 MHz range guard never changes the value. */
  function TckMegahertz(tckFreq: int32): (mhz: int)
    ensures tckFreq == -1 || tckFreq == 0 ==> mhz == DEFAULT_TCK_MHZ
    ensures tckFreq != -1 && tckFreq != 0 ==> mhz == CDiv(tckFreq, HZ_PER_MHZ)
  {
    var hz := if tckFreq == -1 || tckFreq == 0 then DEFAULT_TCK_MHZ * HZ_PER_MHZ else tckFreq;
    var m := CDiv(hz, HZ_PER_MHZ);
    if m < 4 && m > 20 then DEFAULT_TCK_MHZ else m
  }

  /** Requests outside the supported 4-20 MHz range reach the probe as they
      are: nothing clamps them. */
  lemma TckOutOfRangeIsSent(tckFreq: int32)
    requires 0 < tckFreq < 4 * HZ_PER_MHZ || 21 * HZ_PER_MHZ <= tckFreq
    ensures TckMegahertz(tckFreq) < 4 || TckMegahertz(tckFreq) > 20
    ensures TckMegahertz(tckFreq) * HZ_PER_MHZ <= tckFreq < TckMegahertz(tckFreq) * HZ_PER_MHZ + HZ_PER_MHZ
  {
  }

  /** The conversion the range comment and warning describe: a value outside
      4-20 MHz is replaced by the 12 MHz default, so the probe only ever
      receives a supported frequency. */
  function TckMegahertzGuarded(tckFreq: int32): (mhz: int)
    ensures 4 <= mhz <= 20
    ensures 4 <= TckMegahertz(tckFreq) <= 20 ==> mhz == TckMegahertz(tckFreq)
    ensures !(4 <= TckMegahertz(tckFreq) <= 20) ==> mhz == DEFAULT_TCK_MHZ
  {
    var hz := if tckFreq == -1 || tckFreq == 0 then DEFAULT_TCK_MHZ * HZ_PER_MHZ else tckFreq;
    var m := CDiv(hz, HZ_PER_MHZ);
    if m < 4 || m > 20 then DEFAULT_TCK_MHZ else m
  }

  /** The 16-byte payload of the frequency command: sub-command, MHz, zeros. */
  function FrequencyPayload(mhz: int): (r: seq<uint8>)
    ensures |r| == PAYLOAD_ATOMIC_PACKET_LENGTH
  {
    [SET_TCK_FREQUENCY, mhz % 0x100] + Zeros(PAYLOAD_ATOMIC_PACKET_LENGTH - 2)
  }

  /** The frequency command, addressed to the probe's frequency register. */
  function FrequencyPacket(mhz: int): Packet
  {
    Packet(SEND_PACKET_OPCODE, TARGET_FREQUENCY_ADDRESS, FrequencyPayload(mhz), 0)
  }

  /** The packet that makes the probe apply a new frequency. */
  function InterruptPacket(): Packet
  {
    Packet(FREQUENCY_INTERRUPT_OPCODE, 0, [], 0)
  }

  /** The frequency command on the wire: a full header addressed to
      0xA0FFFFF0 whose length field is 16, the sub-command in payload byte 0
      and the MHz value, truncated to a byte, in payload byte 1. */
  lemma FrequencyPacketLayout(mhz: int)
    ensures var b := PacketBytes(FrequencyPacket(mhz));
      && |b| == PACKET_HEADER_TOTAL_LENGTH + PAYLOAD_ATOMIC_PACKET_LENGTH
      && DecodeHeader(b) == HeaderFields(PACKET_START_CODE, SEND_PACKET_OPCODE, TARGET_FREQUENCY_ADDRESS, PAYLOAD_ATOMIC_PACKET_LENGTH)
      && b[PACKET_HEADER_PREAMBLE_LENGTH] == SET_TCK_FREQUENCY
      && b[PACKET_HEADER_PREAMBLE_LENGTH + 1] == mhz % 0x100
  {
    var p := FrequencyPacket(mhz);
    var b := PacketBytes(p);
    var h := Header(p.opcode, p.address, PAYLOAD_ATOMIC_PACKET_LENGTH);
    assert b[..PACKET_HEADER_PREAMBLE_LENGTH] == h;
    HeaderRoundTrip(p.opcode, p.address, PAYLOAD_ATOMIC_PACKET_LENGTH);
    assert DecodeHeader(b) == DecodeHeader(h);
  }

  /** Setting the TCK: the frequency command is flushed at once, and the
      interrupt packet follows, also flushed, only when the first exchange
      reported success. */
  function SetTckFrequencyEffect(s: Snapshot, tckFreq: int32): (o: Outcome)
    requires Ready(s)
    ensures Ready(o.after)
  {
    var first := ConstructAndSend(s, FrequencyPacket(TckMegahertz(tckFreq)));
    if first.status == RESPONSE_OK then ConstructAndSend(first.after, InterruptPacket()) else first
  }

  /** The first report carries the frequency command behind whatever was
      pending; a second report goes out exactly when the first succeeded, and
      a failure is returned as it came. */
  lemma SetTckFrequencySends(s: Snapshot, tckFreq: int32)
    requires Ready(s)
    ensures var o := SetTckFrequencyEffect(s, tckFreq);
      var first := ConstructAndSend(s, FrequencyPacket(TckMegahertz(tckFreq)));
      && |s.sent| < |o.after.sent|
      && o.after.sent[|s.sent|] == WireFrame(s.count + 1, s.pending + [Framed(FrequencyPacket(TckMegahertz(tckFreq)))])
      && (|o.after.sent| == |s.sent| + 2 <==> first.status == RESPONSE_OK)
      && (first.status != RESPONSE_OK ==> o == first)
      && (first.status == RESPONSE_OK ==>
            o.after.sent[|s.sent| + 1] == WireFrame(first.after.count + 1, first.after.pending + [Framed(InterruptPacket())]))
  {
    var t := Append(s, FrequencyPacket(TckMegahertz(tckFreq)));
    FlushSendsPending(t);
    var first := Flush(t);
    assert first.after.sent == s.sent + [WireFrame(s.count + 1, s.pending + [Framed(FrequencyPacket(TckMegahertz(tckFreq)))])];
    if first.status == RESPONSE_OK {
      var u := Append(first.after, InterruptPacket());
      FlushSendsPending(u);
      assert SetTckFrequencyEffect(s, tckFreq) == Flush(u);
      assert Flush(u).after.sent == first.after.sent + [WireFrame(u.count, u.pending)];
    }
  }

  // ---------------------------------------------------------------------------
  // TRST

  /** The pin payload: TRSTB set exactly when the requested `trst` is zero. */
  function TrstPayload(trst: int): (r: seq<uint8>)
    ensures |r| == ATOMIC_JTAG_OPERATION_PACKET_LENGTH
  {
    [if trst == 0 then TRSTB_BIT else 0, 0]
  }

  /** Driving the TRST pin: one pin packet, flushed at once. */
  function SetTrstEffect(s: Snapshot, trst: int): (o: Outcome)
    requires Ready(s)
    ensures Ready(o.after)
  {
    ConstructAndSend(s, Packet(SET_JTAG_PINS_OPCODE, 0, TrstPayload(trst), 0))
  }

  // ---------------------------------------------------------------------------
  // TAP state moves and run-test

  /** A state move: an atomic packet whose payload is the state truncated to
      16 bits, little-endian. */
  function StatePacket(state: int): Packet
  {
    Packet(JTAG_ATOMIC_OPCODE, 0, Le16(state % 0x1_0000), 0)
  }

  /** The state packet is one 16-byte atomic packet whose payload word reads
      back as the low 16 bits of the state. */
  lemma StatePacketLayout(state: int)
    ensures var b := PacketBytes(StatePacket(state));
      && |b| == PAYLOAD_ATOMIC_PACKET_LENGTH
      && Get16(b, PACKET_HEADER_PREAMBLE_LENGTH) == state % 0x1_0000
      && DecodeHeader(b) == HeaderFields(PACKET_START_CODE, JTAG_ATOMIC_OPCODE, 0, ATOMIC_JTAG_OPERATION_PACKET_LENGTH)
  {
    var p := StatePacket(state);
    var b := PacketBytes(p);
    assert b[PACKET_HEADER_PREAMBLE_LENGTH] == p.body[0] && b[PACKET_HEADER_PREAMBLE_LENGTH + 1] == p.body[1];
    var h := Header(p.opcode, p.address, ATOMIC_JTAG_OPERATION_PACKET_LENGTH);
    assert b[..PACKET_HEADER_PREAMBLE_LENGTH] == h;
    HeaderRoundTrip(p.opcode, p.address, ATOMIC_JTAG_OPERATION_PACKET_LENGTH);
    assert DecodeHeader(b) == DecodeHeader(h);
  }

  /** A state move appends its packet and flushes only for the reset state. */
  function StateMove(s: Snapshot, state: int): (o: Outcome)
    requires Ready(s)
    ensures Ready(o.after)
  {
    var t := Append(s, StatePacket(state));
    if state == JTAG_RESET then Flush(t) else Outcome(t, RESPONSE_OK)
  }

  /** A state move sends a report exactly when the state is reset; any other
      state only queues its packet and reports success. */
  lemma StateMoveFlushesIffReset(s: Snapshot, state: int)
    requires Ready(s)
    ensures |StateMove(s, state).after.sent| == |s.sent| + 1 <==> state == JTAG_RESET
    ensures |StateMove(s, state).after.sent| == |s.sent| <==> state != JTAG_RESET
    ensures state != JTAG_RESET ==> StateMove(s, state) == Outcome(Append(s, StatePacket(state)), RESPONSE_OK)
    ensures state == JTAG_RESET ==>
      StateMove(s, state).after.sent == s.sent + [WireFrame(s.count + 1, s.pending + [Framed(StatePacket(state))])]
  {
    if state == JTAG_RESET {
      FlushSendsPending(Append(s, StatePacket(state)));
    }
  }

  /** The packets of `k` idle moves. */
  function IdleChunks(k: nat): (r: seq<Chunk>)
    ensures |r| == k
  {
    seq(k, _ => Framed(StatePacket(JTAG_IDLE)))
  }

  /** `k` idle moves one after the other. */
  function Idles(s: Snapshot, k: nat): (r: Snapshot)
    ensures r.cursor == s.cursor + PAYLOAD_ATOMIC_PACKET_LENGTH * k && r.count == s.count + k
    ensures r.sent == s.sent && r.response == s.response
    ensures r.writeResults == s.writeResults && r.readReplies == s.readReplies
  {
    if k == 0 then s else Append(Idles(s, k - 1), StatePacket(JTAG_IDLE))
  }

  /** Idle moves queue exactly `k` idle packets behind what was pending. */
  lemma {:induction false} IdlesQueue(s: Snapshot, k: nat)
    ensures Idles(s, k).pending == s.pending + IdleChunks(k)
  {
    if k > 0 {
      IdlesQueue(s, k - 1);
      assert IdleChunks(k) == IdleChunks(k - 1) + [Framed(StatePacket(JTAG_IDLE))];
    }
  }

  /** One more idle move is one more step of `Idles`, and it reports success. */
  lemma IdleStep(s: Snapshot, k: nat)
    requires Ready(s)
    ensures Ready(Idles(s, k))
    ensures StateMove(Idles(s, k), JTAG_IDLE) == Outcome(Idles(s, k + 1), RESPONSE_OK)
  {
  }

  /** The loop count of run-test: a non-positive count runs no iteration. */
  function Cycles(numCycles: int): nat
  {
    if numCycles > 0 then numCycles else 0
  }

  /** Run-test: `numCycles` idle moves and one more, whatever end state was
      asked for; none of them flushes. */
  function RunTestEffect(s: Snapshot, numCycles: int): (o: Outcome)
    requires Ready(s)
    ensures Ready(o.after)
  {
    Outcome(Idles(s, Cycles(numCycles) + 1), RESPONSE_OK)
  }

  /** Run-test queues `numCycles + 1` idle packets, never sends a report and
      always reports success. */
  lemma RunTestQueuesIdles(s: Snapshot, numCycles: int)
    requires Ready(s)
    ensures var o := RunTestEffect(s, numCycles); var k := Cycles(numCycles) + 1;
      && o.status == RESPONSE_OK
      && o.after.pending == s.pending + IdleChunks(k)
      && o.after.count == s.count + k
      && o.after.cursor == s.cursor + PAYLOAD_ATOMIC_PACKET_LENGTH * k
      && o.after.sent == s.sent
  {
    IdlesQueue(s, Cycles(numCycles) + 1);
  }

  /** Run-test as written has no capacity check: from an empty buffer, 63
      cycles queue 64 idle packets, 1024 bytes behind the count word, so the
      cursor ends past the end of the 1024-byte report. */
  lemma RunTestOverflows(s: Snapshot)
    requires Ready(s) && s.cursor == PACKET_OFFSET
    ensures RunTestEffect(s, 63).after.cursor == PACKET_OFFSET + MAX_USB_BUFFER_BYTE_SIZE
    ensures RunTestEffect(s, 63).after.cursor > MAX_USB_BUFFER_BYTE_SIZE
  {
    RunTestQueuesIdles(s, 63);
  }

  /** Room for `n` more bytes: nothing to do when they fit; otherwise the
      queue is flushed; a failed flush ends with its status, and one that
      reports OK but leaves the cursor where it was (a read that timed out)
      ends in RESPONSE_PACKET_SIZE_ERROR. */
  function RoomFor(s: Snapshot, n: nat): (o: Outcome)
    requires Ready(s)
    ensures Ready(o.after)
  {
    if s.cursor + n <= MAX_USB_BUFFER_BYTE_SIZE then Outcome(s, RESPONSE_OK)
    else
      var f := Flush(s);
      if f.status != RESPONSE_OK || f.after.cursor + n <= MAX_USB_BUFFER_BYTE_SIZE then f
      else Outcome(f.after, RESPONSE_PACKET_SIZE_ERROR)
  }

  /** Making room succeeds only with room to spare, and when the bytes
      already fit it changes nothing. */
  lemma RoomForFits(s: Snapshot, n: nat)
    requires Ready(s)
    ensures RoomFor(s, n).status == RESPONSE_OK ==> RoomFor(s, n).after.cursor + n <= MAX_USB_BUFFER_BYTE_SIZE
    ensures s.cursor + n <= MAX_USB_BUFFER_BYTE_SIZE <==> RoomFor(s, n) == Outcome(s, RESPONSE_OK)
  {
    if s.cursor + n > MAX_USB_BUFFER_BYTE_SIZE {
      var f := Flush(s);
      FlushSendsPending(s);
      assert |f.after.sent| == |s.sent| + 1;
    }
  }

  /** Run-test with the capacity check it lacks: room for each idle packet is
      made before it is queued, and the first failure ends the run. */
  function FlushingIdles(s: Snapshot, k: nat): (o: Outcome)
    requires Ready(s)
    ensures Ready(o.after)
    decreases k
  {
    if k == 0 then Outcome(s, RESPONSE_OK)
    else
      var r := RoomFor(s, PAYLOAD_ATOMIC_PACKET_LENGTH);
      if r.status != RESPONSE_OK then r
      else FlushingIdles(StateMove(r.after, JTAG_IDLE).after, k - 1)
  }

  /** The corrected run-test never moves the cursor past the report. */
  lemma {:induction false} FlushingIdlesFits(s: Snapshot, k: nat)
    requires Ready(s) && s.cursor <= MAX_USB_BUFFER_BYTE_SIZE
    ensures FlushingIdles(s, k).after.cursor <= MAX_USB_BUFFER_BYTE_SIZE
    decreases k
  {
    if k > 0 {
      var r := RoomFor(s, PAYLOAD_ATOMIC_PACKET_LENGTH);
      RoomForFits(s, PAYLOAD_ATOMIC_PACKET_LENGTH);
      if r.status != RESPONSE_OK {
        FlushOutcomes(s);
      } else {
        FlushingIdlesFits(StateMove(r.after, JTAG_IDLE).after, k - 1);
      }
    }
  }

  /** One idle move in front is the same as one more at the end. */
  lemma {:induction false} IdlesShift(s: Snapshot, k: nat)
    requires 0 < k
    ensures Idles(Append(s, StatePacket(JTAG_IDLE)), k - 1) == Idles(s, k)
  {
    IdlesQueue(Append(s, StatePacket(JTAG_IDLE)), k - 1);
    IdlesQueue(s, k);
    assert IdleChunks(k) == [Framed(StatePacket(JTAG_IDLE))] + IdleChunks(k - 1);
  }

  /** Whenever all the idle packets fit, the corrected run-test does exactly
      what the code as written does. */
  lemma {:induction false} FlushingIdlesAgrees(s: Snapshot, k: nat)
    requires Ready(s) && s.cursor + PAYLOAD_ATOMIC_PACKET_LENGTH * k <= MAX_USB_BUFFER_BYTE_SIZE
    ensures FlushingIdles(s, k) == Outcome(Idles(s, k), RESPONSE_OK)
    decreases k
  {
    if k > 0 {
      RoomForFits(s, PAYLOAD_ATOMIC_PACKET_LENGTH);
      var t := Append(s, StatePacket(JTAG_IDLE));
      assert StateMove(s, JTAG_IDLE).after == t;
      FlushingIdlesAgrees(t, k - 1);
      IdlesShift(s, k);
    }
  }

  // ---------------------------------------------------------------------------
  // IR scan

  /** The IR fast path: the four-packet block, a flush only for the reset end
      state, then the read-back when the caller wants the captured bits and
      nothing failed. The block holds the bit length and end state truncated
      to a byte. */
  function IrScanEffect(s: Snapshot, bitLength: nat, out0: uint8, out1: uint8, wantIn: bool, endState: uint16): (r: Scan)
    requires Ready(s) && (wantIn ==> BytesForBits(bitLength) <= MAX_USB_BUFFER_BYTE_SIZE)
    ensures Ready(r.outcome.after)
  {
    var t := AppendIrBlock(s, bitLength % 0x100, out0, out1, endState % 0x100);
    var o := if endState == JTAG_RESET then Flush(t) else Outcome(t, RESPONSE_OK);
    if wantIn && o.status == RESPONSE_OK then Retrieve(o.after, bitLength) else Scan(o, None)
  }

  /** The IR block is the same four packets appended one at a time. */
  lemma IrBlockIsFourAppends(s: Snapshot, bitLength: uint8, out0: uint8, out1: uint8, endState: uint8)
    ensures AppendIrBlock(s, bitLength, out0, out1, endState)
         == Append(Append(Append(Append(s,
              AtomicPacket(SET_SHIFT_IR_DR_BIT_LENGTH_OPCODE, bitLength, 0)),
              AtomicPacket(SHIFT_DATA_FROM_REGISTER, out0, out1)),
              AtomicPacket(JTAG_ATOMIC_OPCODE, JTAG_SHIFT_IR, 0)),
              AtomicPacket(JTAG_ATOMIC_OPCODE, endState, 0))
  {
    var cs := IrScanChunks(bitLength, out0, out1, endState);
    assert s.pending + cs == s.pending + [cs[0]] + [cs[1]] + [cs[2]] + [cs[3]];
  }

  /** Without a read-back, an IR scan queues four packets and 64 bytes and
      sends a report exactly when the end state is reset. */
  lemma IrScanFlushesIffReset(s: Snapshot, bitLength: nat, out0: uint8, out1: uint8, endState: uint16)
    requires Ready(s)
    ensures var r := IrScanEffect(s, bitLength, out0, out1, false, endState);
      && r.captured == None
      && (|r.outcome.after.sent| == |s.sent| + 1 <==> endState == JTAG_RESET)
      && (endState != JTAG_RESET ==>
            r.outcome.status == RESPONSE_OK
            && r.outcome.after.count == s.count + 4
            && r.outcome.after.cursor == s.cursor + 4 * PAYLOAD_ATOMIC_PACKET_LENGTH
            && r.outcome.after.sent == s.sent)
  {
    var t := AppendIrBlock(s, bitLength % 0x100, out0, out1, endState % 0x100);
    FlushSendsPending(t);
  }

  // ---------------------------------------------------------------------------
  // DR scan

  /** How many bytes of the caller's `out` buffer a DR scan copies. */
  function DrPayloadLength(bitLength: nat): (n: nat)
    ensures bitLength > 16 ==> 8 * n >= bitLength
  {
    if bitLength > 16 then BytesForBits(bitLength) else ATOMIC_JTAG_OPERATION_PACKET_LENGTH
  }

  /** The set-length packet: the bit length truncated to 16 bits. */
  function SetLengthPacket(bitLength: nat): Packet
  {
    Packet(SET_SHIFT_IR_DR_BIT_LENGTH_OPCODE, 0, Le16(bitLength % 0x1_0000), 0)
  }

  /** The data packet: from DDR with padding for more than 16 bits, from the
      register with two bytes otherwise. A missing `out` sends zeros. */
  function DataPacket(bitLength: nat, out: Option<seq<uint8>>): Packet
    requires out.Some? ==> DrPayloadLength(bitLength) <= |out.value|
  {
    if bitLength > 16 then
      var n := BytesForBits(bitLength);
      Packet(SHIFT_DATA_FROM_DDR, 0, Body(out, n), Padding16(n))
    else
      Packet(SHIFT_DATA_FROM_REGISTER, 0, Body(out, ATOMIC_JTAG_OPERATION_PACKET_LENGTH), 0)
  }

  /** The shift packet that moves the TAP into Shift-DR. */
  function ShiftDrPacket(): Packet
  {
    AtomicPacket(JTAG_ATOMIC_OPCODE, JTAG_SHIFT_DR, 0)
  }

  /** The DR data packet carries `ceil(bits / 8)` bytes padded to a multiple of
      16 for long scans, and two bytes from the register for short ones; the
      longest scan needs no padding at all. */
  lemma DataPacketShape(bitLength: nat, out: Option<seq<uint8>>)
    requires out.Some? ==> DrPayloadLength(bitLength) <= |out.value|
    ensures var p := DataPacket(bitLength, out);
      && (bitLength > 16 ==>
            p.opcode == SHIFT_DATA_FROM_DDR && |p.body| == BytesForBits(bitLength)
            && p.padding < 16 && (|p.body| + p.padding) % 16 == 0
            && (bitLength <= MAX_BITS_TO_SHIFT ==> |p.body| + p.padding <= MAX_BITS_TO_SHIFT / 8))
      && (bitLength == MAX_BITS_TO_SHIFT ==> p.padding == 0)
      && (bitLength <= 16 ==> p.opcode == SHIFT_DATA_FROM_REGISTER && |p.body| == 2 && p.padding == 0)
      && (out.Some? ==> p.body == out.value[..|p.body|])
      && (out.None? ==> p.body == Zeros(|p.body|))
  {
    if 16 < bitLength <= MAX_BITS_TO_SHIFT {
      PaddedPayloadBound(bitLength);
    }
  }

  /** Everything a DR scan queues before its state move: the set-length
      packet, the data packet (then the cursor rounded up to four for a DDR
      payload) and the Shift-DR packet. */
  function DrQueue(s: Snapshot, bitLength: nat, out: Option<seq<uint8>>): (r: Snapshot)
    requires out.Some? ==> DrPayloadLength(bitLength) <= |out.value|
    ensures r.count == s.count + 3 && r.sent == s.sent && r.response == s.response
    ensures r.writeResults == s.writeResults && r.readReplies == s.readReplies
  {
    var t := Append(Append(s, SetLengthPacket(bitLength)), DataPacket(bitLength, out));
    Append(if bitLength > 16 then Align(t) else t, ShiftDrPacket())
  }

  /** The DR path: the queued packets, the state move (flushed only for
      reset), then the read-back when wanted and nothing failed. */
  function DrScanEffect(s: Snapshot, bitLength: nat, out: Option<seq<uint8>>, wantIn: bool, endState: uint16): (r: Scan)
    requires Ready(s) && (wantIn ==> BytesForBits(bitLength) <= MAX_USB_BUFFER_BYTE_SIZE)
    requires out.Some? ==> DrPayloadLength(bitLength) <= |out.value|
    ensures Ready(r.outcome.after)
  {
    var o := StateMove(DrQueue(s, bitLength, out), endState);
    if wantIn && o.status == RESPONSE_OK then Retrieve(o.after, bitLength) else Scan(o, None)
  }

  /** The queue of a DR scan: three packets and, for a DDR payload, an
      alignment gap of fewer than four bytes that leaves the cursor on a
      multiple of four before the Shift-DR packet. */
  lemma DrQueueLayout(s: Snapshot, bitLength: nat, out: Option<seq<uint8>>)
    requires out.Some? ==> DrPayloadLength(bitLength) <= |out.value|
    ensures var r := DrQueue(s, bitLength, out);
      var a := s.cursor + 2 * PAYLOAD_ATOMIC_PACKET_LENGTH;
      && (bitLength > 16 ==>
            var d := DataPacket(bitLength, out);
            var c := s.cursor + PAYLOAD_ATOMIC_PACKET_LENGTH + PACKET_HEADER_TOTAL_LENGTH + |d.body| + d.padding;
            && r.pending == s.pending + [Framed(SetLengthPacket(bitLength)), Framed(d), Gap(AlignUp4(c) - c), Framed(ShiftDrPacket())]
            && r.cursor == AlignUp4(c) + PAYLOAD_ATOMIC_PACKET_LENGTH
            && (r.cursor - PAYLOAD_ATOMIC_PACKET_LENGTH) % 4 == 0
            && AlignUp4(c) - c < 4)
      && (bitLength <= 16 ==>
            && r.pending == s.pending + [Framed(SetLengthPacket(bitLength)), Framed(DataPacket(bitLength, out)), Framed(ShiftDrPacket())]
            && r.cursor == a + PAYLOAD_ATOMIC_PACKET_LENGTH)
  {
  }

  /** Without a read-back, a DR scan sends a report exactly when the end state
      is reset, after queueing four packets. */
  lemma DrScanFlushesIffReset(s: Snapshot, bitLength: nat, out: Option<seq<uint8>>, endState: uint16)
    requires Ready(s)
    requires out.Some? ==> DrPayloadLength(bitLength) <= |out.value|
    ensures var r := DrScanEffect(s, bitLength, out, false, endState);
      && r.captured == None
      && (|r.outcome.after.sent| == |s.sent| + 1 <==> endState == JTAG_RESET)
      && (endState != JTAG_RESET ==> r.outcome.status == RESPONSE_OK && r.outcome.after.count == s.count + 4)
      && (endState == JTAG_RESET ==>
            r.outcome.after.sent[|s.sent|]
              == WireFrame(s.count + 4, DrQueue(s, bitLength, out).pending + [Framed(StatePacket(endState))]))
  {
    var q := DrQueue(s, bitLength, out);
    assert q.count == s.count + 3 && q.sent == s.sent && Ready(q);
    var r := DrScanEffect(s, bitLength, out, false, endState);
    assert r == Scan(StateMove(q, endState), None);
    StateMoveFlushesIffReset(q, endState);
  }

  // ---------------------------------------------------------------------------
  // Read-back, shared by both scans

  /** Captured bits come back only when asked for, and then exactly
      `ceil(bits / 8)` of them from the start of the response. */
  lemma ScanReadBack(s: Snapshot, irScan: bool, bitLength: nat, out: Option<seq<uint8>>, wantIn: bool, endState: uint16)
    requires Ready(s) && (wantIn ==> BytesForBits(bitLength) <= MAX_USB_BUFFER_BYTE_SIZE)
    requires irScan ==> out.Some? && 2 <= |out.value|
    requires !irScan && out.Some? ==> DrPayloadLength(bitLength) <= |out.value|
    ensures var r := if irScan then IrScanEffect(s, bitLength, out.value[0], out.value[1], wantIn, endState)
                     else DrScanEffect(s, bitLength, out, wantIn, endState);
      && (r.captured.Some? ==> wantIn && r.outcome.status == RESPONSE_OK
                               && r.captured.value == r.outcome.after.response[..BytesForBits(bitLength)])
      && (wantIn && r.outcome.status == RESPONSE_OK ==> r.captured.Some?)
  {
    if irScan {
      var t := AppendIrBlock(s, bitLength % 0x100, out.value[0], out.value[1], endState % 0x100);
      var o := if endState == JTAG_RESET then Flush(t) else Outcome(t, RESPONSE_OK);
      if wantIn && o.status == RESPONSE_OK {
        RetrieveCopies(o.after, bitLength);
      }
    } else {
      var o := StateMove(DrQueue(s, bitLength, out), endState);
      if wantIn && o.status == RESPONSE_OK {
        RetrieveCopies(o.after, bitLength);
      }
    }
  }

  // ---------------------------------------------------------------------------
  // Scan dispatch

  /** One field of an OpenOCD scan command. `wantIn` says whether the caller
      passed a buffer for the captured bits. */
  datatype ScanField = ScanField(numBits: nat, outValue: Option<seq<uint8>>, wantIn: bool)

  datatype ScanCommand = ScanCommand(irScan: bool, fields: seq<ScanField>, endState: int)

  /** What a scan reads of its field: both IR bytes, or as many `out` bytes as
      the DR data packet copies, and, when the captured bits are wanted, a
      read-back that fits the response. */
  predicate FieldReadable(irScan: bool, f: ScanField)
  {
    && (f.wantIn ==> BytesForBits(f.numBits) <= MAX_USB_BUFFER_BYTE_SIZE)
    && (irScan ==> f.outValue.Some? && 2 <= |f.outValue.value|)
    && (!irScan && f.outValue.Some? ==> DrPayloadLength(f.numBits) <= |f.outValue.value|)
  }

  /** Scan dispatch: more than one field is refused before anything is
      queued; a single field goes to the IR or DR path with the end state
      converted to 16 bits. */
  function ExecuteScanEffect(s: Snapshot, cmd: ScanCommand): (r: Scan)
    requires Ready(s) && 1 <= |cmd.fields|
    requires |cmd.fields| == 1 ==> FieldReadable(cmd.irScan, cmd.fields[0])
    ensures Ready(r.outcome.after)
  {
    if |cmd.fields| > 1 then Scan(Outcome(s, ERROR_FAIL), None)
    else
      var f := cmd.fields[0];
      if cmd.irScan then IrScanEffect(s, f.numBits, f.outValue.value[0], f.outValue.value[1], f.wantIn, cmd.endState % 0x1_0000)
      else DrScanEffect(s, f.numBits, f.outValue, f.wantIn, cmd.endState % 0x1_0000)
  }

  /** A multi-field command fails with ERROR_FAIL and changes nothing. */
  lemma ExecuteScanRefusesFields(s: Snapshot, cmd: ScanCommand)
    requires Ready(s) && 1 < |cmd.fields|
    ensures ExecuteScanEffect(s, cmd) == Scan(Outcome(s, ERROR_FAIL), None)
  {
  }

  // ---------------------------------------------------------------------------
  // The driver's entry points on the engine

  /** `eFP6_2_setTckFrequency`. */
  method SetTckFrequency(e: PacketEngine, tckFreq: int32) returns (err: int)
    requires e.Valid()
    requires e.bytesInBuffer + 2 * PACKET_HEADER_TOTAL_LENGTH + PAYLOAD_ATOMIC_PACKET_LENGTH <= MAX_USB_BUFFER_BYTE_SIZE
    modifies e, e.usbInBuffer, e.usbOutBuffer, e.handle
    ensures e.Valid()
    ensures var o := SetTckFrequencyEffect(old(e.Snap()), tckFreq); e.Snap() == o.after && err == o.status
  {
    var mhz := TckMegahertz(tckFreq);
    err := e.ConstructAndSendPacket(SEND_PACKET_OPCODE, Some(FrequencyPayload(mhz)), PAYLOAD_ATOMIC_PACKET_LENGTH,
                                    TARGET_FREQUENCY_ADDRESS);
    assert Body(Some(FrequencyPayload(mhz)), PAYLOAD_ATOMIC_PACKET_LENGTH) == FrequencyPayload(mhz);
    if err == RESPONSE_OK {
      err := e.ConstructAndSendPacket(FREQUENCY_INTERRUPT_OPCODE, None, 0, 0);
      assert Body(None, 0) == [];
    }
  }

  /** `eFP6_2_setTrst`: `trst` is the requested TRST level from OpenOCD. */
  method SetTrst(e: PacketEngine, trst: int) returns (err: int)
    requires e.Valid()
    requires e.bytesInBuffer + PAYLOAD_ATOMIC_PACKET_LENGTH <= MAX_USB_BUFFER_BYTE_SIZE
    modifies e, e.usbInBuffer, e.usbOutBuffer, e.handle
    ensures e.Valid()
    ensures var o := SetTrstEffect(old(e.Snap()), trst); e.Snap() == o.after && err == o.status
  {
    var payload := [0, 0];
    if trst == 0 {
      payload := payload[0 := TRSTB_BIT];
    }
    assert payload == TrstPayload(trst);
    err := e.ConstructAndSendPacket(SET_JTAG_PINS_OPCODE, Some(payload), ATOMIC_JTAG_OPERATION_PACKET_LENGTH, 0);
    assert Body(Some(payload), ATOMIC_JTAG_OPERATION_PACKET_LENGTH) == payload;
  }

  /** `eFP6_2_jtagGotoState_raw`: the state as a plain number. */
  method JtagGotoStateRaw(e: PacketEngine, state: int) returns (err: int)
    requires e.Valid()
    requires e.bytesInBuffer + PAYLOAD_ATOMIC_PACKET_LENGTH <= MAX_USB_BUFFER_BYTE_SIZE
    modifies e, e.usbInBuffer, e.usbOutBuffer, e.handle
    ensures e.Valid()
    ensures var o := StateMove(old(e.Snap()), state); e.Snap() == o.after && err == o.status
    ensures e.bytesInBuffer <= old(e.bytesInBuffer) + PAYLOAD_ATOMIC_PACKET_LENGTH
  {
    err := RESPONSE_OK;
    var payload := Le16(state % 0x1_0000);
    e.AddPacketToUsbBuffer(JTAG_ATOMIC_OPCODE, Some(payload), ATOMIC_JTAG_OPERATION_PACKET_LENGTH, 0, 0);
    assert Body(Some(payload), ATOMIC_JTAG_OPERATION_PACKET_LENGTH) == payload;
    if state == JTAG_RESET {
      err := e.FlushUsbBuffer();
    }
  }

  /** OpenOCD's state-move command. */
  datatype StateMoveCommand = StateMoveCommand(endState: int)

  /** `eFP6_2_jtagGotoState`: the same move, taking the end state from the command. */
  method JtagGotoState(e: PacketEngine, cmd: StateMoveCommand) returns (err: int)
    requires e.Valid()
    requires e.bytesInBuffer + PAYLOAD_ATOMIC_PACKET_LENGTH <= MAX_USB_BUFFER_BYTE_SIZE
    modifies e, e.usbInBuffer, e.usbOutBuffer, e.handle
    ensures e.Valid()
    ensures var o := StateMove(old(e.Snap()), cmd.endState); e.Snap() == o.after && err == o.status
  {
    err := JtagGotoStateRaw(e, cmd.endState);
  }

  /** `eFP6_2_runtest`: the requested end state only selects an error message
      in the source, so it is not a parameter here. */
  method RunTest(e: PacketEngine, numCycles: int) returns (err: int)
    requires e.Valid()
    requires e.bytesInBuffer + PAYLOAD_ATOMIC_PACKET_LENGTH * (Cycles(numCycles) + 1) <= MAX_USB_BUFFER_BYTE_SIZE
    modifies e, e.usbInBuffer, e.usbOutBuffer, e.handle
    ensures e.Valid()
    ensures var o := RunTestEffect(old(e.Snap()), numCycles); e.Snap() == o.after && err == o.status
  {
    ghost var s0 := e.Snap();
    for i := 0 to Cycles(numCycles)
      invariant e.Valid()
      invariant e.Snap() == Idles(s0, i)
    {
      IdleStep(s0, i);
      var _ := JtagGotoStateRaw(e, JTAG_IDLE);
    }
    IdleStep(s0, Cycles(numCycles));
    err := JtagGotoStateRaw(e, JTAG_IDLE);
  }

  /** Makes room for `n` more bytes before they are queued. */
  method MakeRoom(e: PacketEngine, n: nat) returns (err: int)
    requires e.Valid()
    modifies e, e.usbInBuffer, e.usbOutBuffer, e.handle
    ensures e.Valid()
    ensures var o := RoomFor(old(e.Snap()), n); e.Snap() == o.after && err == o.status
  {
    err := RESPONSE_OK;
    if e.bytesInBuffer + n > MAX_USB_BUFFER_BYTE_SIZE {
      err := e.FlushUsbBuffer();
      if err == RESPONSE_OK && e.bytesInBuffer + n > MAX_USB_BUFFER_BYTE_SIZE {
        err := RESPONSE_PACKET_SIZE_ERROR;
      }
    }
  }

  /** Run-test corrected: any cycle count is safe, because room for each
      idle packet is made before it is queued. */
  method RunTestFlushing(e: PacketEngine, numCycles: int) returns (err: int)
    requires e.Valid()
    modifies e, e.usbInBuffer, e.usbOutBuffer, e.handle
    ensures e.Valid()
    ensures var o := FlushingIdles(old(e.Snap()), Cycles(numCycles) + 1); e.Snap() == o.after && err == o.status
  {
    var k := Cycles(numCycles) + 1;
    ghost var goal := FlushingIdles(e.Snap(), k);
    err := RESPONSE_OK;
    for i := 0 to k
      invariant e.Valid() && err == RESPONSE_OK
      invariant FlushingIdles(e.Snap(), k - i) == goal
    {
      err := MakeRoom(e, PAYLOAD_ATOMIC_PACKET_LENGTH);
      if err != RESPONSE_OK {
        return;
      }
      err := JtagGotoStateRaw(e, JTAG_IDLE);
    }
  }

  /** `eFP6_2_irScan`: `out` is the caller's TDI buffer, of which the first two
      bytes are read. */
  method IrScan(e: PacketEngine, bitLength: nat, out: seq<uint8>, wantIn: bool, endState: uint16)
    returns (err: int, captured: Option<seq<uint8>>)
    requires e.Valid() && e.ScanReady()
    requires 2 <= |out| && (wantIn ==> BytesForBits(bitLength) <= MAX_USB_BUFFER_BYTE_SIZE)
    requires e.bytesInBuffer + 4 * PAYLOAD_ATOMIC_PACKET_LENGTH + ReadBackRoom(wantIn) <= MAX_USB_BUFFER_BYTE_SIZE
    modifies e, e.usbInBuffer, e.usbOutBuffer, e.handle, e.fullScan
    ensures e.Valid() && e.ScanReady()
    ensures var r := IrScanEffect(old(e.Snap()), bitLength, out[0], out[1], wantIn, endState);
      e.Snap() == r.outcome.after && err == r.outcome.status && captured == r.captured
  {
    e.CopyIrScan(bitLength, out[0], out[1], endState);
    err, captured := FinishIrScan(e, bitLength, wantIn, endState == JTAG_RESET);
  }

  /** What an IR scan does after the block copy: the flush for the reset end
      state, then the read-back when wanted and nothing failed. */
  method FinishIrScan(e: PacketEngine, bitLength: nat, wantIn: bool, reset: bool)
    returns (err: int, captured: Option<seq<uint8>>)
    requires e.Valid() && e.ScanReady()
    requires wantIn ==> BytesForBits(bitLength) <= MAX_USB_BUFFER_BYTE_SIZE
    requires e.bytesInBuffer + ReadBackRoom(wantIn) <= MAX_USB_BUFFER_BYTE_SIZE
    modifies e, e.usbInBuffer, e.usbOutBuffer, e.handle
    ensures e.Valid() && e.ScanReady()
    ensures var o := if reset then Flush(old(e.Snap())) else Outcome(old(e.Snap()), RESPONSE_OK);
      var r := if wantIn && o.status == RESPONSE_OK then Retrieve(o.after, bitLength) else Scan(o, None);
      e.Snap() == r.outcome.after && err == r.outcome.status && captured == r.captured
  {
    err := RESPONSE_OK;
    if reset {
      err := e.FlushUsbBuffer();
    }
    captured := None;
    if wantIn && err == RESPONSE_OK {
      err, captured := e.RetrieveData(bitLength);
    }
  }

  /** The room the read-TDO packet takes when a scan reads back. */
  function ReadBackRoom(wantIn: bool): nat
  {
    if wantIn then PACKET_HEADER_TOTAL_LENGTH else 0
  }

  /** The room the set-length and data packets of a DR scan may take,
      with the alignment gap after a DDR payload. */
  function DrPayloadRoom(bitLength: nat): nat
  {
    var n := BytesForBits(bitLength);
    PAYLOAD_ATOMIC_PACKET_LENGTH
    + (if bitLength > 16 then PACKET_HEADER_TOTAL_LENGTH + n + Padding16(n) + 3 else PAYLOAD_ATOMIC_PACKET_LENGTH)
  }

  /** The room a DR scan may need after the cursor: its four packets, the
      alignment gap and, when it reads back, the read-TDO packet. */
  function DrScanRoom(bitLength: nat, wantIn: bool): nat
  {
    DrPayloadRoom(bitLength) + 2 * PAYLOAD_ATOMIC_PACKET_LENGTH + ReadBackRoom(wantIn)
  }

  /** From an empty buffer, any shift up to the driver's 4096-bit maximum
      meets the room both scans require, whether or not it reads back. */
  lemma LargestScanFits(bitLength: nat, wantIn: bool)
    requires bitLength <= MAX_BITS_TO_SHIFT
    ensures BytesForBits(bitLength) <= MAX_USB_BUFFER_BYTE_SIZE
    ensures PACKET_OFFSET + DrScanRoom(bitLength, wantIn) <= MAX_USB_BUFFER_BYTE_SIZE
    ensures PACKET_OFFSET + 4 * PAYLOAD_ATOMIC_PACKET_LENGTH + ReadBackRoom(wantIn) <= MAX_USB_BUFFER_BYTE_SIZE
  {
  }

  /** `eFP6_2_drScan`: `out` is the caller's TDI buffer, or none. */
  method DrScan(e: PacketEngine, bitLength: nat, out: Option<seq<uint8>>, wantIn: bool, endState: uint16)
    returns (err: int, captured: Option<seq<uint8>>)
    requires e.Valid()
    requires out.Some? ==> DrPayloadLength(bitLength) <= |out.value|
    requires e.bytesInBuffer + DrScanRoom(bitLength, wantIn) <= MAX_USB_BUFFER_BYTE_SIZE
    modifies e, e.usbInBuffer, e.usbOutBuffer, e.handle
    ensures e.Valid()
    ensures BytesForBits(bitLength) <= MAX_USB_BUFFER_BYTE_SIZE
    ensures var r := DrScanEffect(old(e.Snap()), bitLength, out, wantIn, endState);
      e.Snap() == r.outcome.after && err == r.outcome.status && captured == r.captured
  {
    QueueDrScan(e, bitLength, out);
    err := JtagGotoStateRaw(e, endState);
    captured := None;
    if wantIn && err == RESPONSE_OK {
      err, captured := e.RetrieveData(bitLength);
    }
  }

  /** The packets a DR scan queues before its state move. */
  method QueueDrScan(e: PacketEngine, bitLength: nat, out: Option<seq<uint8>>)
    requires e.Valid()
    requires out.Some? ==> DrPayloadLength(bitLength) <= |out.value|
    requires e.bytesInBuffer + DrPayloadRoom(bitLength) + PAYLOAD_ATOMIC_PACKET_LENGTH <= MAX_USB_BUFFER_BYTE_SIZE
    modifies e, e.usbInBuffer
    ensures e.Valid()
    ensures e.Snap() == DrQueue(old(e.Snap()), bitLength, out)
    ensures e.bytesInBuffer <= old(e.bytesInBuffer) + DrPayloadRoom(bitLength) + PAYLOAD_ATOMIC_PACKET_LENGTH
  {
    QueueDrPayload(e, bitLength, out);
    var shift: seq<uint8> := [JTAG_SHIFT_DR, 0];
    e.AddPacketToUsbBuffer(JTAG_ATOMIC_OPCODE, Some(shift), ATOMIC_JTAG_OPERATION_PACKET_LENGTH, 0, 0);
    assert Body(Some(shift), ATOMIC_JTAG_OPERATION_PACKET_LENGTH) == shift;
  }

  /** The set-length and data packets of a DR scan, and the alignment after a
      DDR payload. */
  method QueueDrPayload(e: PacketEngine, bitLength: nat, out: Option<seq<uint8>>)
    requires e.Valid()
    requires out.Some? ==> DrPayloadLength(bitLength) <= |out.value|
    requires e.bytesInBuffer + DrPayloadRoom(bitLength) <= MAX_USB_BUFFER_BYTE_SIZE
    modifies e, e.usbInBuffer
    ensures e.Valid()
    ensures var t := Append(Append(old(e.Snap()), SetLengthPacket(bitLength)), DataPacket(bitLength, out));
      e.Snap() == if bitLength > 16 then Align(t) else t
    ensures e.bytesInBuffer <= old(e.bytesInBuffer) + DrPayloadRoom(bitLength)
  {
    var lengthWord := Le16(bitLength % 0x1_0000);
    e.AddPacketToUsbBuffer(SET_SHIFT_IR_DR_BIT_LENGTH_OPCODE, Some(lengthWord), ATOMIC_JTAG_OPERATION_PACKET_LENGTH, 0, 0);
    assert Body(Some(lengthWord), ATOMIC_JTAG_OPERATION_PACKET_LENGTH) == lengthWord;
    if bitLength > 16 {
      QueueDdrData(e, bitLength, out);
    } else {
      e.AddPacketToUsbBuffer(SHIFT_DATA_FROM_REGISTER, out, ATOMIC_JTAG_OPERATION_PACKET_LENGTH, 0, 0);
    }
  }

  /** A long DR payload: `ceil(bits / 8)` bytes from DDR, padded to a multiple
      of 16, then the cursor rounded up to four. */
  method QueueDdrData(e: PacketEngine, bitLength: nat, out: Option<seq<uint8>>)
    requires e.Valid() && bitLength > 16
    requires out.Some? ==> BytesForBits(bitLength) <= |out.value|
    requires e.bytesInBuffer + PACKET_HEADER_TOTAL_LENGTH + BytesForBits(bitLength) + Padding16(BytesForBits(bitLength)) + 3
               <= MAX_USB_BUFFER_BYTE_SIZE
    modifies e, e.usbInBuffer
    ensures e.Valid()
    ensures e.Snap() == Align(Append(old(e.Snap()), DataPacket(bitLength, out)))
    ensures e.bytesInBuffer
              <= old(e.bytesInBuffer) + PACKET_HEADER_TOTAL_LENGTH + BytesForBits(bitLength) + Padding16(BytesForBits(bitLength)) + 3
  {
    var bytesToTransmit := (bitLength + 7) / 8;
    var paddingBytes := 0;
    if bytesToTransmit % 16 != 0 {
      paddingBytes := 16 - bytesToTransmit % 16;
    }
    assert bytesToTransmit == BytesForBits(bitLength) && paddingBytes == Padding16(bytesToTransmit);
    e.AddPacketToUsbBuffer(SHIFT_DATA_FROM_DDR, out, bytesToTransmit, paddingBytes, 0);
    e.AlignBytesInBuffer();
  }

  /** The room a scan command may need after the cursor. */
  function ScanRoom(cmd: ScanCommand): nat
  {
    if |cmd.fields| != 1 then 0
    else if cmd.irScan then 4 * PAYLOAD_ATOMIC_PACKET_LENGTH + ReadBackRoom(cmd.fields[0].wantIn)
    else DrScanRoom(cmd.fields[0].numBits, cmd.fields[0].wantIn)
  }

  /** `eFP6_2_executeScan`. */
  method ExecuteScan(e: PacketEngine, cmd: ScanCommand) returns (err: int, captured: Option<seq<uint8>>)
    requires e.Valid() && e.ScanReady() && 1 <= |cmd.fields|
    requires |cmd.fields| == 1 ==> FieldReadable(cmd.irScan, cmd.fields[0])
    requires e.bytesInBuffer + ScanRoom(cmd) <= MAX_USB_BUFFER_BYTE_SIZE
    modifies e, e.usbInBuffer, e.usbOutBuffer, e.handle, e.fullScan
    ensures e.Valid() && e.ScanReady()
    ensures var r := ExecuteScanEffect(old(e.Snap()), cmd);
      e.Snap() == r.outcome.after && err == r.outcome.status && captured == r.captured
  {
    if |cmd.fields| > 1 {
      return ERROR_FAIL, None;
    }
    var f := cmd.fields[0];
    if cmd.irScan {
      err, captured := IrScan(e, f.numBits, f.outValue.value, f.wantIn, cmd.endState % 0x1_0000);
    } else {
      err, captured := DrScan(e, f.numBits, f.outValue, f.wantIn, cmd.endState % 0x1_0000);
    }
  }

  // ---------------------------------------------------------------------------
  // Enumeration

  /** The serial-number filter: an empty name takes any device; otherwise the
      serial must start with the name, compared case-sensitively. */
  predicate SerialMatches(serial: seq<char>, name: seq<char>)
  {
    |name| == 0 || (|name| <= |serial| && serial[..|name|] == name)
  }

  /** The matching serials, in enumeration order. */
  function Matching(serials: seq<seq<char>>, name: seq<char>): (r: seq<seq<char>>)
    ensures |r| <= |serials|
  {
    if serials == [] then []
    else
      var last := serials[|serials| - 1];
      Matching(serials[..|serials| - 1], name) + (if SerialMatches(last, name) then [last] else [])
  }

  /** Only serials that start with the name are found, and each one found is
      one of the enumerated serials. */
  lemma {:induction false} MatchingOnlyMatches(serials: seq<seq<char>>, name: seq<char>)
    ensures forall k :: 0 <= k < |Matching(serials, name)| ==>
      SerialMatches(Matching(serials, name)[k], name) && Matching(serials, name)[k] in serials
  {
    if serials != [] {
      var init := serials[..|serials| - 1];
      MatchingOnlyMatches(init, name);
      assert forall x :: x in init ==> x in serials;
    }
  }

  /** With an empty name every device matches. */
  lemma {:induction false} EmptyNameMatchesAll(serials: seq<seq<char>>)
    ensures Matching(serials, []) == serials
  {
    if serials != [] {
      EmptyNameMatchesAll(serials[..|serials| - 1]);
    }
  }

  /** Every serial that starts with the name is found. */
  lemma {:induction false} MatchingComplete(serials: seq<seq<char>>, name: seq<char>, i: nat)
    requires i < |serials| && SerialMatches(serials[i], name)
    ensures serials[i] in Matching(serials, name)
  {
    var init := serials[..|serials| - 1];
    if i < |init| {
      assert init[i] == serials[i];
      MatchingComplete(init, name, i);
    }
  }

  /** Nothing is found exactly when no serial starts with the name. */
  lemma {:induction false} NoMatchIffNone(serials: seq<seq<char>>, name: seq<char>)
    ensures |Matching(serials, name)| == 0 <==> forall i :: 0 <= i < |serials| ==> !SerialMatches(serials[i], name)
  {
    if serials != [] {
      var init := serials[..|serials| - 1];
      NoMatchIffNone(init, name);
      assert forall i :: 0 <= i < |init| ==> init[i] == serials[i];
    }
  }

  /** The serial remembered is that of the last matching device in
      enumeration order: it matches and no later device does. */
  lemma {:induction false} LastMatchWins(serials: seq<seq<char>>, name: seq<char>)
    requires |Matching(serials, name)| > 0
    ensures var m := Matching(serials, name);
      exists i :: 0 <= i < |serials| && serials[i] == m[|m| - 1] && SerialMatches(serials[i], name)
                  && forall j :: i < j < |serials| ==> !SerialMatches(serials[j], name)
  {
    var n := |serials|;
    var init := serials[..n - 1];
    var m := Matching(serials, name);
    if SerialMatches(serials[n - 1], name) {
      assert serials[n - 1] == m[|m| - 1];
    } else {
      assert m == Matching(init, name);
      LastMatchWins(init, name);
      var i :| 0 <= i < |init| && init[i] == m[|m| - 1] && SerialMatches(init[i], name)
               && forall j :: i < j < |init| ==> !SerialMatches(init[j], name);
      assert serials[i] == init[i];
      assert forall j :: i < j < n ==> !SerialMatches(serials[j], name) by {
        forall j | i < j < n
          ensures !SerialMatches(serials[j], name)
        {
          if j < n - 1 {
            assert serials[j] == init[j];
          }
        }
      }
    }
  }

  /** Enumeration's matching loop: counts the devices whose serial matches and
      remembers the last one's serial; with no match the remembered serial
      stays what it was. */
  method Enumerate(serials: seq<seq<char>>, name: seq<char>, previous: seq<char>) returns (found: nat, chosen: seq<char>)
    ensures found == |Matching(serials, name)|
    ensures chosen == if found == 0 then previous else Matching(serials, name)[found - 1]
  {
    found, chosen := 0, previous;
    var i := 0;
    while i < |serials|
      invariant 0 <= i <= |serials|
      invariant found == |Matching(serials[..i], name)|
      invariant chosen == if found == 0 then previous else Matching(serials[..i], name)[found - 1]
    {
      assert serials[..i + 1][..i] == serials[..i];
      if |name| == 0 {
        found := found + 1;
        chosen := serials[i];
      } else if |name| <= |serials[i]| && serials[i][..|name|] == name {
        found := found + 1;
        chosen := serials[i];
      }
      i := i + 1;
    }
    assert serials[..i] == serials;
  }
}
