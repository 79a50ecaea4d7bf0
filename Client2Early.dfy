/** The early variant of the same driver. It shares the buffer, the header
    writers and the flush with the live driver, but its packet builder
    returns a status and every caller threads that status through explicit
    checks; its TCK and TRST entry points take a byte and a boolean, and its
    enumeration keeps every device. Each operation here is proved to have
    the live driver's effect, or is related to it by a lemma where the two
    differ. */
module Client2Early {
  import opened Bytes
  import opened Api2
  import opened Wire
  import opened Transaction
  import opened Engine
  import opened Client2

  // ---------------------------------------------------------------------------
  // Packet building with a status

  /** `AddPacketToUsbBuffer` of the early variant: the same append, and a
      status that is always success. */
  method AddPacket(e: PacketEngine, opcode: uint16, buf: Option<seq<uint8>>, packetLength: nat, paddingBytes: nat,
                   targetAddress: uint32) returns (err: int)
    requires e.Valid()
    requires buf.Some? ==> packetLength <= |buf.value|
    requires e.bytesInBuffer + PACKET_HEADER_TOTAL_LENGTH + packetLength + paddingBytes <= MAX_USB_BUFFER_BYTE_SIZE
    modifies e, e.usbInBuffer
    ensures e.Valid() && err == RESPONSE_OK
    ensures e.Snap() == Append(old(e.Snap()), Packet(opcode, targetAddress, Body(buf, packetLength), paddingBytes))
  {
    e.AddPacketToUsbBuffer(opcode, buf, packetLength, paddingBytes, targetAddress);
    err := RESPONSE_OK;
  }

  /** `ConstructAndSendPacket`: the flush runs only when the append reported
      success, which it always does, so this is the live send. */
  method ConstructAndSendPacket(e: PacketEngine, opcode: uint16, buf: Option<seq<uint8>>, packetLength: nat,
                                targetAddress: uint32) returns (err: int)
    requires e.Valid()
    requires buf.Some? ==> packetLength <= |buf.value|
    requires e.bytesInBuffer + PACKET_HEADER_TOTAL_LENGTH + packetLength <= MAX_USB_BUFFER_BYTE_SIZE
    modifies e, e.usbInBuffer, e.usbOutBuffer, e.handle
    ensures e.Valid()
    ensures var o := ConstructAndSend(old(e.Snap()), Packet(opcode, targetAddress, Body(buf, packetLength), 0));
      e.Snap() == o.after && err == o.status
  {
    err := AddPacket(e, opcode, buf, packetLength, 0, targetAddress);
    if err == RESPONSE_OK {
      err := e.FlushUsbBuffer();
    }
  }

  /** `retrieveData`: the read-TDO exchange, then `ceil(bits / 8)` response
      bytes for the caller when it succeeded. */
  method RetrieveData(e: PacketEngine, bitLength: nat) returns (err: int, captured: Option<seq<uint8>>)
    requires e.Valid()
    requires BytesForBits(bitLength) <= MAX_USB_BUFFER_BYTE_SIZE
    requires e.bytesInBuffer + PACKET_HEADER_TOTAL_LENGTH <= MAX_USB_BUFFER_BYTE_SIZE
    modifies e, e.usbInBuffer, e.usbOutBuffer, e.handle
    ensures e.Valid()
    ensures var r := Retrieve(old(e.Snap()), bitLength);
      e.Snap() == r.outcome.after && err == r.outcome.status && captured == r.captured
  {
    var byteLength := (bitLength + 7) / 8;
    err := ConstructAndSendPacket(e, READ_TDO_BUFFER_COMMAND_OPCODE, None, 0, 0);
    assert Body(None, 0) == [];
    if err != RESPONSE_OK {
      return err, None;
    }
    captured := Some(e.usbOutBuffer[..byteLength]);
  }

  // ---------------------------------------------------------------------------
  // TCK

  /** The value the early range guard would substitute. */
  const TCK_FALLBACK_MHZ: uint8 := 4

  /** The early frequency argument is already in MHz. Its range guard asks
      for a value below 4 and above 20 at once, so it never fires and the
      byte goes out unchanged. */
  function EarlyTck(tckFreq: uint8): (mhz: uint8)
    ensures mhz == tckFreq
  {
    if tckFreq < 4 && tckFreq > 20 then TCK_FALLBACK_MHZ else tckFreq
  }

  /** Setting the TCK in the early variant: the frequency command and, when it
      succeeded, the interrupt packet, each flushed at once. */
  function EarlySetTckFrequencyEffect(s: Snapshot, tckFreq: uint8): (o: Outcome)
    requires Ready(s)
    ensures Ready(o.after)
  {
    var first := ConstructAndSend(s, FrequencyPacket(EarlyTck(tckFreq)));
    if first.status == RESPONSE_OK then ConstructAndSend(first.after, InterruptPacket()) else first
  }

  /** A whole number of MHz, given in Hz to the live driver, is truncated back
      to that number. */
  lemma WholeMegahertz(mhz: nat)
    requires 0 < mhz < 0x100
    ensures TckMegahertz((mhz * HZ_PER_MHZ) as int32) == mhz
  {
    var hz := mhz * HZ_PER_MHZ;
    assert hz != -1 && hz != 0;
    DivBounds(hz, HZ_PER_MHZ);
    assert hz / HZ_PER_MHZ == mhz;
  }

  /** A non-zero byte of MHz has the effect the live driver has for that many
      MHz given in Hz. Zero differs: the early variant sends 0 MHz, while the
      live driver reads 0 Hz as the 12 MHz default. */
  lemma EarlyTckMatchesLive(s: Snapshot, tckFreq: uint8)
    requires Ready(s)
    ensures tckFreq > 0 ==>
      EarlySetTckFrequencyEffect(s, tckFreq) == SetTckFrequencyEffect(s, (tckFreq as int * HZ_PER_MHZ) as int32)
    ensures tckFreq == 0 ==>
      FrequencyPacket(EarlyTck(tckFreq)).body[1] == 0 && FrequencyPacket(TckMegahertz(0)).body[1] == DEFAULT_TCK_MHZ as uint8
  {
    if tckFreq > 0 {
      WholeMegahertz(tckFreq as nat);
      assert FrequencyPayload(EarlyTck(tckFreq) as int) == FrequencyPayload(TckMegahertz((tckFreq as int * HZ_PER_MHZ) as int32));
    }
  }

  /** `set_tck_frequency_cmd`: the frequency command alone, flushed at once. */
  method SetTckFrequencyCmd(e: PacketEngine, tckFreq: uint8) returns (err: int)
    requires e.Valid()
    requires e.bytesInBuffer + PACKET_HEADER_TOTAL_LENGTH + PAYLOAD_ATOMIC_PACKET_LENGTH <= MAX_USB_BUFFER_BYTE_SIZE
    modifies e, e.usbInBuffer, e.usbOutBuffer, e.handle
    ensures e.Valid()
    ensures var o := ConstructAndSend(old(e.Snap()), FrequencyPacket(tckFreq as int)); e.Snap() == o.after && err == o.status
  {
    var payload := [SET_TCK_FREQUENCY, tckFreq] + Zeros(PAYLOAD_ATOMIC_PACKET_LENGTH - 2);
    assert payload == FrequencyPayload(tckFreq as int);
    err := ConstructAndSendPacket(e, SEND_PACKET_OPCODE, Some(payload), PAYLOAD_ATOMIC_PACKET_LENGTH,
                                  TARGET_FREQUENCY_ADDRESS);
    assert Body(Some(payload), PAYLOAD_ATOMIC_PACKET_LENGTH) == payload;
  }

  /** `eFP6_2_setTckFrequency` of the early variant. */
  method SetTckFrequency(e: PacketEngine, tckFreq: uint8) returns (err: int)
    requires e.Valid()
    requires e.bytesInBuffer + 2 * PACKET_HEADER_TOTAL_LENGTH + PAYLOAD_ATOMIC_PACKET_LENGTH <= MAX_USB_BUFFER_BYTE_SIZE
    modifies e, e.usbInBuffer, e.usbOutBuffer, e.handle
    ensures e.Valid()
    ensures var o := EarlySetTckFrequencyEffect(old(e.Snap()), tckFreq); e.Snap() == o.after && err == o.status
  {
    var f := tckFreq;
    if f < 4 && f > 20 {
      f := TCK_FALLBACK_MHZ;
    }
    err := SetTckFrequencyCmd(e, f);
    if err == RESPONSE_OK {
      err := ConstructAndSendPacket(e, FREQUENCY_INTERRUPT_OPCODE, None, 0, 0);
      assert Body(None, 0) == [];
    }
  }

  // ---------------------------------------------------------------------------
  // TRST

  /** The early pin command: TRSTB is set when `state` is true. */
  function EarlySetTrstEffect(s: Snapshot, state: bool): (o: Outcome)
    requires Ready(s)
    ensures Ready(o.after)
  {
    ConstructAndSend(s, Packet(SET_JTAG_PINS_OPCODE, 0, [if state then TRSTB_BIT else 0, 0], 0))
  }

  /** The two variants take the TRST request with opposite meanings: the early
      `true` is the live driver's `trst == 0`, and the pin byte carries TRSTB
      exactly when `state` holds. */
  lemma EarlyTrstIsInverted(s: Snapshot, state: bool, trst: int)
    requires Ready(s)
    ensures (trst == 0 <==> state) ==> EarlySetTrstEffect(s, state) == SetTrstEffect(s, trst)
    ensures (trst == 0 <==> !state) ==> TrstPayload(trst)[0] != [if state then TRSTB_BIT else 0, 0][0]
  {
    if trst == 0 <==> state {
      assert TrstPayload(trst) == [if state then TRSTB_BIT else 0, 0];
    }
  }

  /** `eFP6_2_SetTrst`. */
  method SetTrst(e: PacketEngine, state: bool) returns (err: int)
    requires e.Valid()
    requires e.bytesInBuffer + PAYLOAD_ATOMIC_PACKET_LENGTH <= MAX_USB_BUFFER_BYTE_SIZE
    modifies e, e.usbInBuffer, e.usbOutBuffer, e.handle
    ensures e.Valid()
    ensures var o := EarlySetTrstEffect(old(e.Snap()), state); e.Snap() == o.after && err == o.status
  {
    var pins: uint8 := 0;
    if state {
      pins := TRSTB_BIT;
    }
    var payload := [pins, 0];
    err := ConstructAndSendPacket(e, SET_JTAG_PINS_OPCODE, Some(payload), ATOMIC_JTAG_OPERATION_PACKET_LENGTH, 0);
    assert Body(Some(payload), ATOMIC_JTAG_OPERATION_PACKET_LENGTH) == payload;
  }

  // ---------------------------------------------------------------------------
  // TAP state moves

  /** `eFP6_2_jtagGotoState` of the early variant: the state packet and, after
      an append that reported success, a flush for the reset state; this is
      the live state move. */
  method JtagGotoState(e: PacketEngine, jtagState: uint16) returns (err: int)
    requires e.Valid()
    requires e.bytesInBuffer + PAYLOAD_ATOMIC_PACKET_LENGTH <= MAX_USB_BUFFER_BYTE_SIZE
    modifies e, e.usbInBuffer, e.usbOutBuffer, e.handle
    ensures e.Valid()
    ensures var o := StateMove(old(e.Snap()), jtagState as int); e.Snap() == o.after && err == o.status
    ensures e.bytesInBuffer <= old(e.bytesInBuffer) + PAYLOAD_ATOMIC_PACKET_LENGTH
  {
    ghost var s0 := e.Snap();
    var payload := Le16(jtagState as int);
    assert Packet(JTAG_ATOMIC_OPCODE, 0, Body(Some(payload), ATOMIC_JTAG_OPERATION_PACKET_LENGTH), 0)
        == StatePacket(jtagState as int);
    err := AddPacket(e, JTAG_ATOMIC_OPCODE, Some(payload), ATOMIC_JTAG_OPERATION_PACKET_LENGTH, 0, 0);
    assert e.Snap() == Append(s0, StatePacket(jtagState as int));
    if err == RESPONSE_OK {
      if jtagState == JTAG_RESET {
        err := e.FlushUsbBuffer();
      }
    }
  }

  // ---------------------------------------------------------------------------
  // Scans

  /** `eFP6_2_irScan` of the early variant: the same static four-packet block
      as the live driver, with the same flush and read-back. */
  method IrScan(e: PacketEngine, bitLength: nat, out: seq<uint8>, wantIn: bool, endState: uint16)
    returns (err: int, captured: Option<seq<uint8>>)
    requires e.Valid() && e.ScanReady()
    requires 2 <= |out| && (wantIn ==> BytesForBits(bitLength) <= MAX_USB_BUFFER_BYTE_SIZE)
    requires e.bytesInBuffer + 4 * PAYLOAD_ATOMIC_PACKET_LENGTH + ReadBackRoom(wantIn) <= MAX_USB_BUFFER_BYTE_SIZE
    modifies e, e.usbInBuffer, e.usbOutBuffer, e.handle, e.fullScan
    ensures e.Valid() && e.ScanReady()
    ensures var r := IrScanEffect(old(e.Snap()), bitLength, out[0], out[1], wantIn, endState);
      e.Snap() == r.outcome.after && err == r.outcome.status && captured == r.captured
  {
    e.CopyIrScan(bitLength, out[0], out[1], endState);
    err, captured := FinishIrScan(e, bitLength, wantIn, endState == JTAG_RESET);
  }

  /** What an IR scan does after the block copy: the flush for the reset end
      state, then the read-back when wanted and nothing failed. */
  method FinishIrScan(e: PacketEngine, bitLength: nat, wantIn: bool, reset: bool)
    returns (err: int, captured: Option<seq<uint8>>)
    requires e.Valid() && e.ScanReady()
    requires wantIn ==> BytesForBits(bitLength) <= MAX_USB_BUFFER_BYTE_SIZE
    requires e.bytesInBuffer + ReadBackRoom(wantIn) <= MAX_USB_BUFFER_BYTE_SIZE
    modifies e, e.usbInBuffer, e.usbOutBuffer, e.handle
    ensures e.Valid() && e.ScanReady()
    ensures var o := if reset then Flush(old(e.Snap())) else Outcome(old(e.Snap()), RESPONSE_OK);
      var r := if wantIn && o.status == RESPONSE_OK then Retrieve(o.after, bitLength) else Scan(o, None);
      e.Snap() == r.outcome.after && err == r.outcome.status && captured == r.captured
  {
    err := RESPONSE_OK;
    if reset {
      err := e.FlushUsbBuffer();
    }
    captured := None;
    if wantIn && err == RESPONSE_OK {
      err, captured := RetrieveData(e, bitLength);
    }
  }

  /** `eFP6_2_drScan` of the early variant. Each append's status is checked
      and an early return would skip the rest; the appends always succeed, so
      the scan has the live driver's effect. */
  method DrScan(e: PacketEngine, bitLength: nat, out: Option<seq<uint8>>, wantIn: bool, endState: uint16)
    returns (err: int, captured: Option<seq<uint8>>)
    requires e.Valid()
    requires out.Some? ==> DrPayloadLength(bitLength) <= |out.value|
    requires e.bytesInBuffer + DrScanRoom(bitLength, wantIn) <= MAX_USB_BUFFER_BYTE_SIZE
    modifies e, e.usbInBuffer, e.usbOutBuffer, e.handle
    ensures e.Valid()
    ensures BytesForBits(bitLength) <= MAX_USB_BUFFER_BYTE_SIZE
    ensures var r := DrScanEffect(old(e.Snap()), bitLength, out, wantIn, endState);
      e.Snap() == r.outcome.after && err == r.outcome.status && captured == r.captured
  {
    captured := None;
    err := QueueDrScan(e, bitLength, out);
    if err == RESPONSE_OK {
      err := JtagGotoState(e, endState);
    }
    if wantIn && err == RESPONSE_OK {
      err, captured := RetrieveData(e, bitLength);
    }
  }

  /** Everything the early DR scan queues before its state move, with the
      status checks between the appends. */
  method QueueDrScan(e: PacketEngine, bitLength: nat, out: Option<seq<uint8>>) returns (err: int)
    requires e.Valid()
    requires out.Some? ==> DrPayloadLength(bitLength) <= |out.value|
    requires e.bytesInBuffer + DrPayloadRoom(bitLength) + PAYLOAD_ATOMIC_PACKET_LENGTH <= MAX_USB_BUFFER_BYTE_SIZE
    modifies e, e.usbInBuffer
    ensures e.Valid() && err == RESPONSE_OK
    ensures e.Snap() == DrQueue(old(e.Snap()), bitLength, out)
    ensures e.bytesInBuffer <= old(e.bytesInBuffer) + DrPayloadRoom(bitLength) + PAYLOAD_ATOMIC_PACKET_LENGTH
  {
    err := QueueDrPayload(e, bitLength, out);
    if err == RESPONSE_OK {
      var shift: seq<uint8> := [JTAG_SHIFT_DR, 0];
      err := AddPacket(e, JTAG_ATOMIC_OPCODE, Some(shift), ATOMIC_JTAG_OPERATION_PACKET_LENGTH, 0, 0);
      assert Body(Some(shift), ATOMIC_JTAG_OPERATION_PACKET_LENGTH) == shift;
    }
  }

  /** The set-length and data packets of the early DR scan, with the status
      check between them. */
  method QueueDrPayload(e: PacketEngine, bitLength: nat, out: Option<seq<uint8>>) returns (err: int)
    requires e.Valid()
    requires out.Some? ==> DrPayloadLength(bitLength) <= |out.value|
    requires e.bytesInBuffer + DrPayloadRoom(bitLength) <= MAX_USB_BUFFER_BYTE_SIZE
    modifies e, e.usbInBuffer
    ensures e.Valid() && err == RESPONSE_OK
    ensures var t := Append(Append(old(e.Snap()), SetLengthPacket(bitLength)), DataPacket(bitLength, out));
      e.Snap() == if bitLength > 16 then Align(t) else t
    ensures e.bytesInBuffer <= old(e.bytesInBuffer) + DrPayloadRoom(bitLength)
  {
    var lengthWord := Le16(bitLength % 0x1_0000);
    err := AddPacket(e, SET_SHIFT_IR_DR_BIT_LENGTH_OPCODE, Some(lengthWord), ATOMIC_JTAG_OPERATION_PACKET_LENGTH, 0, 0);
    assert Body(Some(lengthWord), ATOMIC_JTAG_OPERATION_PACKET_LENGTH) == lengthWord;
    if err == RESPONSE_OK {
      if bitLength > 16 {
        err := QueueDdrData(e, bitLength, out);
      } else {
        err := AddPacket(e, SHIFT_DATA_FROM_REGISTER, out, ATOMIC_JTAG_OPERATION_PACKET_LENGTH, 0, 0);
      }
    }
  }

  /** The long DR payload of the early variant, aligned after the append. */
  method QueueDdrData(e: PacketEngine, bitLength: nat, out: Option<seq<uint8>>) returns (err: int)
    requires e.Valid() && bitLength > 16
    requires out.Some? ==> BytesForBits(bitLength) <= |out.value|
    requires e.bytesInBuffer + PACKET_HEADER_TOTAL_LENGTH + BytesForBits(bitLength) + Padding16(BytesForBits(bitLength)) + 3
               <= MAX_USB_BUFFER_BYTE_SIZE
    modifies e, e.usbInBuffer
    ensures e.Valid() && err == RESPONSE_OK
    ensures e.Snap() == Align(Append(old(e.Snap()), DataPacket(bitLength, out)))
    ensures e.bytesInBuffer
              <= old(e.bytesInBuffer) + PACKET_HEADER_TOTAL_LENGTH + BytesForBits(bitLength) + Padding16(BytesForBits(bitLength)) + 3
  {
    var paddingBytes := 0;
    var bytesToTransmit := (bitLength + 7) / 8;
    if bytesToTransmit % 16 != 0 {
      paddingBytes := 16 - bytesToTransmit % 16;
    }
    assert bytesToTransmit == BytesForBits(bitLength) && paddingBytes == Padding16(bytesToTransmit);
    err := AddPacket(e, SHIFT_DATA_FROM_DDR, out, bytesToTransmit, paddingBytes, 0);
    e.AlignBytesInBuffer();
  }

  // ---------------------------------------------------------------------------
  // Enumeration

  /** `eFP6_2_enumerate` of the early variant: every device is counted and the
      last one's serial is kept; this is the live matching loop with an empty
      name. */
  method Enumerate(serials: seq<seq<char>>, previous: seq<char>) returns (found: nat, chosen: seq<char>)
    ensures found == |serials|
    ensures chosen == if found == 0 then previous else serials[found - 1]
    ensures found == |Matching(serials, [])|
    ensures chosen == if found == 0 then previous else Matching(serials, [])[found - 1]
  {
    found, chosen := 0, previous;
    for i := 0 to |serials|
      invariant found == i
      invariant chosen == if i == 0 then previous else serials[i - 1]
    {
      found := found + 1;
      chosen := serials[i];
    }
    EmptyNameMatchesAll(serials);
  }
}
