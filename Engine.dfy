/** The transaction buffer and packet framer shared by both host drivers:
    the outgoing and response report buffers, the write cursor, the packet
    count, the static IR scan block, and the operations that append packets,
    copy the IR block, align the cursor and flush to the probe. */
module Engine {
  import opened Bytes
  import opened Api2
  import opened Wire
  import opened Hid
  import opened Transaction

  /** Four chunks appended at once serialize as their bytes in order. */
  lemma {:induction false} SerializeFour(ps: seq<Chunk>, a: Chunk, b: Chunk, c: Chunk, d: Chunk)
    ensures Serialize(ps + [a, b, c, d])
         == Serialize(ps) + (ChunkBytes(a) + ChunkBytes(b) + ChunkBytes(c) + ChunkBytes(d))
    ensures CountPackets(ps + [a, b, c, d])
         == CountPackets(ps) + ChunkPackets(a) + ChunkPackets(b) + ChunkPackets(c) + ChunkPackets(d)
  {
    SerializeTwo(ps, a, b);
    assert ps + [a, b, c, d] == (ps + [a, b]) + [c, d];
    SerializeTwo(ps + [a, b], c, d);
    Associate(Serialize(ps), ChunkBytes(a), ChunkBytes(b), ChunkBytes(c), ChunkBytes(d));
  }

  lemma {:induction false} SerializeTwo(ps: seq<Chunk>, a: Chunk, b: Chunk)
    ensures Serialize(ps + [a, b]) == Serialize(ps) + ChunkBytes(a) + ChunkBytes(b)
    ensures CountPackets(ps + [a, b]) == CountPackets(ps) + ChunkPackets(a) + ChunkPackets(b)
  {
    SerializeSnoc(ps, a);
    assert ps + [a, b] == (ps + [a]) + [b];
    SerializeSnoc(ps + [a], b);
  }

  lemma Associate(s: seq<uint8>, a: seq<uint8>, b: seq<uint8>, c: seq<uint8>, d: seq<uint8>)
    ensures s + a + b + c + d == s + (a + b + c + d)
  {
  }

  /** The hard-coded IR block is byte for byte the four packets it stands for,
      and they add four to the count. */
  lemma {:induction false} IrScanBlockIsChunks(ps: seq<Chunk>, bitLength: uint8, out0: uint8, out1: uint8, endState: uint8)
    ensures Serialize(ps + IrScanChunks(bitLength, out0, out1, endState))
         == Serialize(ps) + IrScanBytes(IrScanTemplate(bitLength, out0, out1, endState))
    ensures CountPackets(ps + IrScanChunks(bitLength, out0, out1, endState)) == CountPackets(ps) + 4
  {
    var cs := IrScanChunks(bitLength, out0, out1, endState);
    SerializeFour(ps, cs[0], cs[1], cs[2], cs[3]);
    assert cs == [cs[0], cs[1], cs[2], cs[3]];
    PacketAtomicIsFramed(SET_SHIFT_IR_DR_BIT_LENGTH_OPCODE, bitLength, 0);
    PacketAtomicIsFramed(SHIFT_DATA_FROM_REGISTER, out0, out1);
    PacketAtomicIsFramed(JTAG_ATOMIC_OPCODE, JTAG_SHIFT_IR, 0);
    PacketAtomicIsFramed(JTAG_ATOMIC_OPCODE, endState, 0);
  }

  /** The IR block copy produces the same bytes as four generic appends of its
      packets with the simplified header, starting from a zero tail. */
  lemma {:induction false} IrScanMatchesAppends(s: seq<uint8>, c: nat, bitLength: uint8, out0: uint8, out1: uint8, endState: uint8)
    requires c + 4 * PAYLOAD_ATOMIC_PACKET_LENGTH <= |s|
    requires ZeroFrom(s, c)
    ensures var s1 := AppendWrites(s, c, SET_SHIFT_IR_DR_BIT_LENGTH_OPCODE, Some([bitLength, 0]), 2, 0, 0);
      var s2 := AppendWrites(s1, c + 16, SHIFT_DATA_FROM_REGISTER, Some([out0, out1]), 2, 0, 0);
      var s3 := AppendWrites(s2, c + 32, JTAG_ATOMIC_OPCODE, Some([JTAG_SHIFT_IR, 0]), 2, 0, 0);
      AppendWrites(s3, c + 48, JTAG_ATOMIC_OPCODE, Some([endState, 0]), 2, 0, 0)
        == s[..c] + IrScanBytes(IrScanTemplate(bitLength, out0, out1, endState)) + s[c + 64..]
  {
    var b := IrScanTemplate(bitLength, out0, out1, endState);
    var s1 := AppendWrites(s, c, SET_SHIFT_IR_DR_BIT_LENGTH_OPCODE, Some([bitLength, 0]), 2, 0, 0);
    AtomicAppendStep(s, c, SET_SHIFT_IR_DR_BIT_LENGTH_OPCODE, bitLength, 0);
    var s2 := AppendWrites(s1, c + 16, SHIFT_DATA_FROM_REGISTER, Some([out0, out1]), 2, 0, 0);
    AtomicAppendStep(s1, c + 16, SHIFT_DATA_FROM_REGISTER, out0, out1);
    SpliceTwice(s, c, PacketAtomicBytes(b.setLen), PacketAtomicBytes(b.data), s1, s2);
    var s3 := AppendWrites(s2, c + 32, JTAG_ATOMIC_OPCODE, Some([JTAG_SHIFT_IR, 0]), 2, 0, 0);
    AtomicAppendStep(s2, c + 32, JTAG_ATOMIC_OPCODE, JTAG_SHIFT_IR, 0);
    SpliceTwice(s, c, PacketAtomicBytes(b.setLen) + PacketAtomicBytes(b.data), PacketAtomicBytes(b.shift), s2, s3);
    var s4 := AppendWrites(s3, c + 48, JTAG_ATOMIC_OPCODE, Some([endState, 0]), 2, 0, 0);
    AtomicAppendStep(s3, c + 48, JTAG_ATOMIC_OPCODE, endState, 0);
    SpliceTwice(s, c, PacketAtomicBytes(b.setLen) + PacketAtomicBytes(b.data) + PacketAtomicBytes(b.shift),
                PacketAtomicBytes(b.endState), s3, s4);
  }

  /** One generic append of a two-byte packet with no address, over a zero tail. */
  lemma AtomicAppendStep(s: seq<uint8>, c: nat, opcode: uint16, data0: uint8, data1: uint8)
    requires c + PAYLOAD_ATOMIC_PACKET_LENGTH <= |s|
    requires ZeroFrom(s, c)
    ensures var t := AppendWrites(s, c, opcode, Some([data0, data1]), 2, 0, 0);
      && t == s[..c] + PacketAtomicBytes(Atomic(opcode, data0, data1)) + s[c + PAYLOAD_ATOMIC_PACKET_LENGTH..]
      && ZeroFrom(t, c + PAYLOAD_ATOMIC_PACKET_LENGTH)
  {
    AppendWritesFrame(s, c, opcode, Some([data0, data1]), 2, 0, 0);
    PacketAtomicIsFramed(opcode, data0, data1);
    assert Body(Some([data0, data1]), 2) == [data0, data1];
    var t := AppendWrites(s, c, opcode, Some([data0, data1]), 2, 0, 0);
    assert forall i :: c + PAYLOAD_ATOMIC_PACKET_LENGTH <= i < |t| ==> t[i] == s[i];
  }

  /** Two splices at adjacent positions are one splice of both. */
  lemma SpliceTwice(s: seq<uint8>, c: nat, a: seq<uint8>, b: seq<uint8>, t1: seq<uint8>, t2: seq<uint8>)
    requires c + |a| + |b| <= |s|
    requires t1 == s[..c] + a + s[c + |a|..]
    requires t2 == t1[..c + |a|] + b + t1[c + |a| + |b|..]
    ensures t2 == s[..c] + (a + b) + s[c + |a| + |b|..]
  {
    assert t1[..c + |a|] == s[..c] + a;
    assert t1[c + |a| + |b|..] == s[c + |a| + |b|..];
  }

  /** The layout of the outgoing buffer: the count word is clear beyond byte 0,
      the pending chunks follow it up to the cursor, every byte from the cursor
      on is zero (which is what lets appends skip stores), and the count is the
      number of packets the chunks hold, each at least a header long. */
  ghost predicate Layout(s: seq<uint8>, cursor: nat, ps: seq<Chunk>, count: nat)
  {
    && |s| == MAX_USB_BUFFER_BYTE_SIZE
    && PACKET_OFFSET <= cursor <= MAX_USB_BUFFER_BYTE_SIZE
    && s[1] == 0 && s[2] == 0 && s[3] == 0
    && ZeroFrom(s, cursor)
    && s[PACKET_OFFSET..cursor] == Serialize(ps)
    && count == CountPackets(ps)
    && 14 * count <= cursor - PACKET_OFFSET
  }

  /** The process-wide state of one driver: the report buffers, the cursor and
      count, the static IR scan block and the open device. */
  class PacketEngine {
    const usbInBuffer: array<uint8>
    const usbOutBuffer: array<uint8>
    const fullScan: array<uint8>
    const handle: HidDevice
    var bytesInBuffer: nat
    var packetsInBuffer: uint8

    /** The chunks between the count word and the cursor, in order. */
    ghost var Pending: seq<Chunk>
    ghost const Repr: set<object>

    /** The engine's invariant. The zero tail is what lets appends skip stores. */
    ghost predicate Valid()
      reads this, usbInBuffer
    {
      && Shape()
      && Layout(usbInBuffer[..], bytesInBuffer, Pending, packetsInBuffer)
    }

    /** The fixed part of the invariant: which objects make up the engine and
        the sizes of its buffers. It depends on constants only. */
    ghost predicate Shape()
    {
      && Repr == {this, usbInBuffer, usbOutBuffer, fullScan, handle}
      && usbInBuffer.Length == MAX_USB_BUFFER_BYTE_SIZE
      && usbOutBuffer.Length == MAX_USB_BUFFER_BYTE_SIZE
      && fullScan.Length == 4 * PAYLOAD_ATOMIC_PACKET_LENGTH
      && usbInBuffer != usbOutBuffer && fullScan != usbInBuffer && fullScan != usbOutBuffer
    }

    /** The engine's state as values. */
    ghost function Snap(): Snapshot
      reads this, handle, usbOutBuffer
    {
      Snapshot(Pending, bytesInBuffer, packetsInBuffer, handle.writeResults, handle.readReplies, handle.sent, usbOutBuffer[..])
    }

    /** The static IR block holds its four fixed packets, whatever the four
        per-scan bytes are. Only the IR scan writes the block, so every other
        operation keeps this by leaving the array alone. */
    ghost predicate ScanReady()
      reads fullScan
    {
      fullScan.Length == 4 * PAYLOAD_ATOMIC_PACKET_LENGTH && IsIrTemplate(fullScan[..])
    }

    /** Opening a session: both report buffers are cleared in full and the
        cursor starts after the count word. */
    constructor (device: HidDevice)
      ensures Valid() && ScanReady() && handle == device && fresh(Repr - {device})
      ensures bytesInBuffer == PACKET_OFFSET && packetsInBuffer == 0 && Pending == []
      ensures usbInBuffer[..] == Zeros(MAX_USB_BUFFER_BYTE_SIZE) && usbOutBuffer[..] == Zeros(MAX_USB_BUFFER_BYTE_SIZE)
      ensures fullScan[..] == IrScanBytes(IrScanTemplate(0, 0, 0, 0))
    {
      usbInBuffer := new uint8[MAX_USB_BUFFER_BYTE_SIZE](_ => 0);
      usbOutBuffer := new uint8[MAX_USB_BUFFER_BYTE_SIZE](_ => 0);
      var t := IrScanBytes(IrScanTemplate(0, 0, 0, 0));
      fullScan := new uint8[4 * PAYLOAD_ATOMIC_PACKET_LENGTH](i => if 0 <= i < |t| then t[i] else 0);
      handle := device;
      bytesInBuffer := PACKET_OFFSET;
      packetsInBuffer := 0;
      Pending := [];
      Repr := {this, usbInBuffer, usbOutBuffer, fullScan, device};
      new;
      assert usbInBuffer[..] == Zeros(MAX_USB_BUFFER_BYTE_SIZE);
      EmptyLayout(usbInBuffer[..], bytesInBuffer, Pending, packetsInBuffer);
      assert usbOutBuffer[..] == Zeros(MAX_USB_BUFFER_BYTE_SIZE);
      assert fullScan[..] == t;
      assert t[IR_SET_LEN_DATA0] == 0 && t[IR_DATA_DATA0] == 0 && t[IR_DATA_DATA1] == 0 && t[IR_END_STATE_DATA0] == 0 by {
        var b := IrScanTemplate(0, 0, 0, 0);
        assert t[16..32] == PacketAtomicBytes(b.data);
        assert t[48..] == PacketAtomicBytes(b.endState);
      }
    }

    /** One `uint16_t` store into the outgoing buffer. */
    method Store16(off: nat, v: nat)
      requires off + 2 <= usbInBuffer.Length
      modifies usbInBuffer
      ensures usbInBuffer[..] == Put16(old(usbInBuffer[..]), off, v)
    {
      usbInBuffer[off] := v % 0x100;
      usbInBuffer[off + 1] := (v / 0x100) % 0x100;
    }

    /** The full header at the cursor: all six words of the canonical preamble. */
    method AddUsbPacketHeader(packetType: uint16, targetAddress: uint32, packetLength: nat)
      requires bytesInBuffer + PACKET_HEADER_PREAMBLE_LENGTH <= usbInBuffer.Length
      modifies usbInBuffer
      ensures usbInBuffer[..] == FullHeaderWrites(old(usbInBuffer[..]), bytesInBuffer, packetType, targetAddress, packetLength)
      ensures usbInBuffer[..] == old(usbInBuffer[..])[..bytesInBuffer] + Header(packetType, targetAddress, packetLength)
                               + old(usbInBuffer[..])[bytesInBuffer + PACKET_HEADER_PREAMBLE_LENGTH..]
    {
      var c := bytesInBuffer;
      Store16(c, PACKET_START_CODE);
      Store16(c + 2, packetType);
      Store16(c + 4, targetAddress / 0x1_0000);
      Store16(c + 6, Mask20(targetAddress));
      Store16(c + 8, packetLength / 0x1_0000);
      Store16(c + 10, Mask20(packetLength));
      FullHeaderWritesHeader(old(usbInBuffer[..]), c, packetType, targetAddress, packetLength);
    }

    /** The simplified header at the cursor: start code, opcode and the low
        length word only. The address words and the high length word keep
        whatever the buffer holds. */
    method AddUsbPacketHeaderSimpler(packetType: uint16, packetLength: nat)
      requires bytesInBuffer + PACKET_HEADER_PREAMBLE_LENGTH <= usbInBuffer.Length
      modifies usbInBuffer
      ensures usbInBuffer[..] == SimplifiedHeaderWrites(old(usbInBuffer[..]), bytesInBuffer, packetType, packetLength)
      ensures usbInBuffer[..] == old(usbInBuffer[..])[..bytesInBuffer]
                               + (Le16(PACKET_START_CODE) + Le16(packetType) + old(usbInBuffer[bytesInBuffer + 4..bytesInBuffer + 10])
                                  + Le16(Mask20(packetLength)))
                               + old(usbInBuffer[..])[bytesInBuffer + PACKET_HEADER_PREAMBLE_LENGTH..]
    {
      var c := bytesInBuffer;
      Store16(c, PACKET_START_CODE);
      Store16(c + 2, packetType);
      Store16(c + 10, Mask20(packetLength));
      SimplifiedHeaderLayout(old(usbInBuffer[..]), c, packetType, packetLength);
    }

    /** The payload copy of an append: the caller's bytes after the preamble, or
        nothing at all when it passes no buffer. */
    method CopyPayload(buf: Option<seq<uint8>>, packetLength: nat)
      requires buf.Some? ==> packetLength <= |buf.value|
      requires bytesInBuffer + PACKET_HEADER_PREAMBLE_LENGTH + packetLength <= usbInBuffer.Length
      modifies usbInBuffer
      ensures usbInBuffer[..] == PayloadWrites(old(usbInBuffer[..]), bytesInBuffer, buf, packetLength)
    {
      var p := bytesInBuffer + PACKET_HEADER_PREAMBLE_LENGTH;
      if buf.Some? {
        ghost var s := usbInBuffer[..];
        forall i | 0 <= i < packetLength {
          usbInBuffer[p + i] := buf.value[i];
        }
        assert usbInBuffer[..] == CopyTo(s, p, buf.value[..packetLength]);
      }
    }

    /** The stores of one append: the payload copy (only when the caller passes
        a buffer) and then the header, full only for a non-zero target address.
        Padding and CRC bytes are never stored. Over a zero tail this leaves
        exactly the canonical packet at the cursor. */
    method WritePacket(opcode: uint16, buf: Option<seq<uint8>>, packetLength: nat, paddingBytes: nat, targetAddress: uint32)
      requires usbInBuffer.Length == MAX_USB_BUFFER_BYTE_SIZE
      requires buf.Some? ==> packetLength <= |buf.value|
      requires bytesInBuffer + PACKET_HEADER_TOTAL_LENGTH + packetLength + paddingBytes <= MAX_USB_BUFFER_BYTE_SIZE
      requires ZeroFrom(usbInBuffer[..], bytesInBuffer)
      modifies usbInBuffer
      ensures usbInBuffer[..] == old(usbInBuffer[..])[..bytesInBuffer]
                               + PacketBytes(Packet(opcode, targetAddress, Body(buf, packetLength), paddingBytes))
                               + old(usbInBuffer[..])[bytesInBuffer + PACKET_HEADER_TOTAL_LENGTH + packetLength + paddingBytes..]
    {
      ghost var s := usbInBuffer[..];
      CopyPayload(buf, packetLength);
      WriteHeader(opcode, targetAddress, packetLength + paddingBytes);
      assert usbInBuffer[..] == AppendWrites(s, bytesInBuffer, opcode, buf, packetLength, paddingBytes, targetAddress);
      AppendWritesFrame(s, bytesInBuffer, opcode, buf, packetLength, paddingBytes, targetAddress);
    }

    /** The header half of an append: the full header for a target address,
        the simplified one otherwise. */
    method WriteHeader(opcode: uint16, targetAddress: uint32, len: nat)
      requires bytesInBuffer + PACKET_HEADER_PREAMBLE_LENGTH <= usbInBuffer.Length
      modifies usbInBuffer
      ensures usbInBuffer[..] == HeaderWrites(old(usbInBuffer[..]), bytesInBuffer, opcode, targetAddress, len)
    {
      if targetAddress != 0 {
        AddUsbPacketHeader(opcode, targetAddress, len);
      } else {
        AddUsbPacketHeaderSimpler(opcode, len);
      }
    }

    /** Appends one packet at the cursor, advances the cursor past header,
        payload, padding and CRC, and counts the packet. */
    method AddPacketToUsbBuffer(opcode: uint16, buf: Option<seq<uint8>>, packetLength: nat, paddingBytes: nat, targetAddress: uint32)
      requires Valid()
      requires buf.Some? ==> packetLength <= |buf.value|
      requires bytesInBuffer + PACKET_HEADER_TOTAL_LENGTH + packetLength + paddingBytes <= MAX_USB_BUFFER_BYTE_SIZE
      modifies this, usbInBuffer
      ensures Valid()
      ensures Snap() == Append(old(Snap()), Packet(opcode, targetAddress, Body(buf, packetLength), paddingBytes))
    {
      ghost var s := usbInBuffer[..];
      WritePacket(opcode, buf, packetLength, paddingBytes, targetAddress);
      CountPacket(s, Packet(opcode, targetAddress, Body(buf, packetLength), paddingBytes),
                  PACKET_HEADER_TOTAL_LENGTH + packetLength + paddingBytes);
    }

    /** The bookkeeping after an append's stores: the cursor moves past the
        packet and the count grows by one. */
    method CountPacket(ghost s: seq<uint8>, ghost p: Packet, n: nat)
      requires Shape() && Layout(s, bytesInBuffer, Pending, packetsInBuffer)
      requires n == PACKET_HEADER_TOTAL_LENGTH + |p.body| + p.padding && bytesInBuffer + n <= MAX_USB_BUFFER_BYTE_SIZE
      requires usbInBuffer[..] == s[..bytesInBuffer] + PacketBytes(p) + s[bytesInBuffer + n..]
      modifies this
      ensures Valid()
      ensures bytesInBuffer == old(bytesInBuffer) + n && packetsInBuffer == old(packetsInBuffer) + 1
      ensures Snap() == Append(old(Snap()), p)
    {
      var c := bytesInBuffer;
      ghost var ps := Pending;
      var k := packetsInBuffer;
      CountBound(s, c, ps, k, n, 1);
      Pending := ps + [Framed(p)];
      packetsInBuffer := k + 1;
      bytesInBuffer := c + n;
      AppendLayout(s, c, ps, k, p, n, usbInBuffer[..], bytesInBuffer, Pending, packetsInBuffer);
    }

    /** Stamps the count into byte 0, writes the whole report, and after a
        successful write completes the exchange. A failed write leaves the
        buffer, cursor and count as they were, so the packets stay pending. */
    method FlushUsbBuffer() returns (err: int)
      requires Valid()
      modifies this, usbInBuffer, usbOutBuffer, handle
      ensures Valid()
      ensures var o := Flush(old(Snap())); Snap() == o.after && err == o.status
      ensures old(handle.NextWrite()) < 0 ==> usbInBuffer[..] == old(usbInBuffer[..])[0 := old(packetsInBuffer)]
      ensures old(handle.NextWrite()) >= 0 ==> usbInBuffer[..] == Zeros(MAX_USB_BUFFER_BYTE_SIZE)
    {
      ghost var s := usbInBuffer[..];
      FrameLayout(s, bytesInBuffer, packetsInBuffer, Pending);
      usbInBuffer[0] := packetsInBuffer;
      StampLayout(s, usbInBuffer[..], bytesInBuffer, Pending, packetsInBuffer);
      err := handle.Write(usbInBuffer[..]);
      if err >= 0 {
        err := CompleteExchange();
      }
    }

    /** The rest of a flush once the write succeeded: clear the span written
        since the last flush, read the response, and reset the cursor and count
        only after a full read. After a short read the packets are already
        wiped but still counted. */
    method CompleteExchange() returns (err: int)
      requires Valid()
      modifies this, usbInBuffer, usbOutBuffer, handle
      ensures Valid()
      ensures var o := Exchange(old(Snap())); Snap() == o.after && err == o.status
      ensures usbInBuffer[..] == Zeros(MAX_USB_BUFFER_BYTE_SIZE)
    {
      var c, k := bytesInBuffer, packetsInBuffer;
      ClearWritten();
      err := handle.Read(usbOutBuffer);
      if err < MAX_USB_BUFFER_BYTE_SIZE {
        Pending := [Wiped(c - PACKET_OFFSET, k)];
        WipedLayout(usbInBuffer[..], bytesInBuffer, Pending, packetsInBuffer);
        return;
      }
      Pending := [];
      packetsInBuffer := 0;
      bytesInBuffer := PACKET_OFFSET;
      EmptyLayout(usbInBuffer[..], bytesInBuffer, Pending, packetsInBuffer);
      err := RESPONSE_OK;
    }

    /** Clears only the span written since the last flush; the rest is zero already. */
    method ClearWritten()
      requires Valid()
      modifies usbInBuffer
      ensures usbInBuffer[..] == Zeros(MAX_USB_BUFFER_BYTE_SIZE)
    {
      forall i | 0 <= i < bytesInBuffer {
        usbInBuffer[i] := 0;
      }
      assert usbInBuffer[..] == Zeros(MAX_USB_BUFFER_BYTE_SIZE);
    }

    /** Appends one packet without padding and flushes at once. */
    method ConstructAndSendPacket(opcode: uint16, buf: Option<seq<uint8>>, packetLength: nat, targetAddress: uint32)
      returns (err: int)
      requires Valid()
      requires buf.Some? ==> packetLength <= |buf.value|
      requires bytesInBuffer + PACKET_HEADER_TOTAL_LENGTH + packetLength <= MAX_USB_BUFFER_BYTE_SIZE
      modifies this, usbInBuffer, usbOutBuffer, handle
      ensures Valid()
      ensures var o := ConstructAndSend(old(Snap()), Packet(opcode, targetAddress, Body(buf, packetLength), 0));
        Snap() == o.after && err == o.status
    {
      AddPacketToUsbBuffer(opcode, buf, packetLength, 0, targetAddress);
      err := FlushUsbBuffer();
    }

    /** Asks the probe for the captured bits and copies `ceil(bitLength / 8)`
        bytes of its response; nothing is copied when the exchange failed. */
    method RetrieveData(bitLength: nat) returns (err: int, captured: Option<seq<uint8>>)
      requires Valid()
      requires BytesForBits(bitLength) <= MAX_USB_BUFFER_BYTE_SIZE
      requires bytesInBuffer + PACKET_HEADER_TOTAL_LENGTH <= MAX_USB_BUFFER_BYTE_SIZE
      modifies this, usbInBuffer, usbOutBuffer, handle
      ensures Valid()
      ensures var r := Retrieve(old(Snap()), bitLength); Snap() == r.outcome.after && err == r.outcome.status
      ensures captured == Retrieve(old(Snap()), bitLength).captured
    {
      var byteLength := (bitLength + 7) / 8;
      err := ConstructAndSendPacket(READ_TDO_BUFFER_COMMAND_OPCODE, None, 0, 0);
      assert Body(None, 0) == [];
      if err != RESPONSE_OK {
        return err, None;
      }
      captured := Some(usbOutBuffer[..byteLength]);
    }

    /** The four per-scan assignments into the static IR block. */
    method SetIrScanFields(bitLength: nat, out0: uint8, out1: uint8, endState: uint16)
      requires ScanReady()
      modifies fullScan
      ensures ScanReady()
      ensures fullScan[..] == IrScanBytes(IrScanTemplate(bitLength % 0x100, out0, out1, endState % 0x100))
    {
      ghost var t: seq<uint8> := fullScan[..];
      var len: uint8, end: uint8 := bitLength % 0x100, endState % 0x100;
      fullScan[IR_SET_LEN_DATA0] := len;
      fullScan[IR_DATA_DATA0] := out0;
      fullScan[IR_DATA_DATA1] := out1;
      fullScan[IR_END_STATE_DATA0] := end;
      TemplateRewrite(t, len, out0, out1, end);
      ghost var u: seq<uint8> := t[IR_SET_LEN_DATA0 := len][IR_DATA_DATA0 := out0][IR_DATA_DATA1 := out1];
      assert fullScan[..] == u[IR_END_STATE_DATA0 := end];
    }

    /** Copies the 64-byte IR block to the cursor one 32-bit word at a time. */
    method CopyIrBlock()
      requires usbInBuffer.Length == MAX_USB_BUFFER_BYTE_SIZE && fullScan.Length == 4 * PAYLOAD_ATOMIC_PACKET_LENGTH
      requires usbInBuffer != fullScan
      requires bytesInBuffer + 4 * PAYLOAD_ATOMIC_PACKET_LENGTH <= MAX_USB_BUFFER_BYTE_SIZE
      modifies usbInBuffer
      ensures usbInBuffer[..] == old(usbInBuffer[..])[..bytesInBuffer] + fullScan[..]
                               + old(usbInBuffer[..])[bytesInBuffer + 4 * PAYLOAD_ATOMIC_PACKET_LENGTH..]
    {
      var c := bytesInBuffer;
      var k := 0;
      while k < 16
        invariant 0 <= k <= 16
        invariant forall j :: 0 <= j < 4 * k ==> usbInBuffer[c + j] == fullScan[j]
        invariant forall j :: 0 <= j < usbInBuffer.Length && !(c <= j < c + 4 * k) ==> usbInBuffer[j] == old(usbInBuffer[j])
      {
        usbInBuffer[c + 4 * k] := fullScan[4 * k];
        usbInBuffer[c + 4 * k + 1] := fullScan[4 * k + 1];
        usbInBuffer[c + 4 * k + 2] := fullScan[4 * k + 2];
        usbInBuffer[c + 4 * k + 3] := fullScan[4 * k + 3];
        k := k + 1;
      }
    }

    /** The IR fast path's buffer work: rewrite the four variable bytes of the
        static block, copy its 64 bytes to the cursor, and count four packets. */
    method CopyIrScan(bitLength: nat, out0: uint8, out1: uint8, endState: uint16)
      requires Valid() && ScanReady()
      requires bytesInBuffer + 4 * PAYLOAD_ATOMIC_PACKET_LENGTH <= MAX_USB_BUFFER_BYTE_SIZE
      modifies this, usbInBuffer, fullScan
      ensures Valid() && ScanReady()
      ensures fullScan[..] == IrScanBytes(IrScanTemplate(bitLength % 0x100, out0, out1, endState % 0x100))
      ensures Snap() == AppendIrBlock(old(Snap()), bitLength % 0x100, out0, out1, endState % 0x100)
    {
      ghost var s := usbInBuffer[..];
      SetIrScanFields(bitLength, out0, out1, endState);
      CopyIrBlock();
      CountIrBlock(s, bitLength % 0x100, out0, out1, endState % 0x100);
    }

    /** The bookkeeping after the IR block copy: 64 bytes and four packets. */
    method CountIrBlock(ghost s: seq<uint8>, bitLength: uint8, out0: uint8, out1: uint8, endState: uint8)
      requires Shape() && Layout(s, bytesInBuffer, Pending, packetsInBuffer)
      requires bytesInBuffer + 4 * PAYLOAD_ATOMIC_PACKET_LENGTH <= MAX_USB_BUFFER_BYTE_SIZE
      requires usbInBuffer[..] == s[..bytesInBuffer] + IrScanBytes(IrScanTemplate(bitLength, out0, out1, endState))
                                + s[bytesInBuffer + 4 * PAYLOAD_ATOMIC_PACKET_LENGTH..]
      modifies this
      ensures Valid()
      ensures Snap() == AppendIrBlock(old(Snap()), bitLength, out0, out1, endState)
    {
      var c := bytesInBuffer;
      ghost var ps := Pending;
      var k := packetsInBuffer;
      CountBound(s, c, ps, k, 64, 4);
      Pending := ps + IrScanChunks(bitLength, out0, out1, endState);
      packetsInBuffer := k + 4;
      bytesInBuffer := c + 64;
      IrScanLayout(s, c, ps, k, bitLength, out0, out1, endState, usbInBuffer[..], bytesInBuffer, Pending, packetsInBuffer);
    }

    /** Rounds the cursor up to the next multiple of four; the skipped bytes are
        zero already and count no packet. */
    method AlignBytesInBuffer()
      requires Valid()
      modifies this
      ensures Valid()
      ensures bytesInBuffer == AlignUp4(old(bytesInBuffer)) && packetsInBuffer == old(packetsInBuffer)
      ensures Snap() == Align(old(Snap()))
    {
      var c := bytesInBuffer;
      var aligned := c;
      if aligned % 4 != 0 {
        aligned := aligned + (4 - aligned % 4);
      }
      assert aligned == AlignUp4(c);
      ghost var ps := Pending + [Gap(aligned - c)];
      GapLayout(usbInBuffer[..], c, Pending, packetsInBuffer, aligned, ps);
      Pending := ps;
      bytesInBuffer := aligned;
    }
  }

  /** Splicing `b` in at the cursor over a zero tail moves the zero tail past it
      and extends the span after the count word by exactly `b`. */
  lemma SpliceLayout(s: seq<uint8>, c: nat, b: seq<uint8>, t: seq<uint8>)
    requires PACKET_OFFSET <= c && c + |b| <= |s|
    requires ZeroFrom(s, c)
    requires t == s[..c] + b + s[c + |b|..]
    ensures |t| == |s| && t[..c] == s[..c] && t[c..c + |b|] == b
    ensures ZeroFrom(t, c + |b|)
    ensures t[PACKET_OFFSET..c + |b|] == s[PACKET_OFFSET..c] + b
  {
    assert forall i :: c + |b| <= i < |t| ==> t[i] == s[i];
  }

  /** The freshly cleared buffer with nothing pending. */
  lemma EmptyLayout(s: seq<uint8>, c: nat, ps: seq<Chunk>, count: nat)
    requires s == Zeros(MAX_USB_BUFFER_BYTE_SIZE) && c == PACKET_OFFSET && ps == [] && count == 0
    ensures Layout(s, c, ps, count)
  {
  }

  /** Splicing one framed packet in at the cursor of a well-laid-out buffer
      yields a well-laid-out buffer with that packet pending after the others;
      the count cannot wrap, since every packet takes at least a header. */
  lemma AppendLayout(s: seq<uint8>, c: nat, ps: seq<Chunk>, count: nat, p: Packet, n: nat,
                      t: seq<uint8>, c2: nat, ps2: seq<Chunk>, count2: nat)
    requires Layout(s, c, ps, count)
    requires n == PACKET_HEADER_TOTAL_LENGTH + |p.body| + p.padding && c + n <= MAX_USB_BUFFER_BYTE_SIZE
    requires t == s[..c] + PacketBytes(p) + s[c + n..]
    requires c2 == c + n && ps2 == ps + [Framed(p)] && count2 == count + 1
    ensures Layout(t, c2, ps2, count2)
  {
    SpliceLayout(s, c, PacketBytes(p), t);
    SerializeSnoc(ps, Framed(p));
  }

  /** Every packet takes at least a header, so `m` more packets that fit the
      buffer cannot wrap the 8-bit count. */
  lemma CountBound(s: seq<uint8>, c: nat, ps: seq<Chunk>, count: nat, n: nat, m: nat)
    requires Layout(s, c, ps, count)
    requires 14 * m <= n && c + n <= MAX_USB_BUFFER_BYTE_SIZE
    ensures count + m < 0x100
  {
  }

  /** Storing the count into byte 0 disturbs nothing the layout describes. */
  lemma StampLayout(s: seq<uint8>, t: seq<uint8>, c: nat, ps: seq<Chunk>, count: nat)
    requires Layout(s, c, ps, count) && count < 0x100 && t == s[0 := count]
    ensures Layout(t, c, ps, count)
  {
    assert t[PACKET_OFFSET..c] == s[PACKET_OFFSET..c];
  }

  /** A cleared buffer is laid out as one wiped span of the old length that
      still claims the old count. */
  lemma WipedLayout(s: seq<uint8>, c: nat, ps: seq<Chunk>, count: nat)
    requires s == Zeros(MAX_USB_BUFFER_BYTE_SIZE) && PACKET_OFFSET <= c <= |s|
    requires 14 * count <= c - PACKET_OFFSET
    requires ps == [Wiped(c - PACKET_OFFSET, count)]
    ensures Layout(s, c, ps, count)
  {
    assert ps[..0] == [];
    assert s[PACKET_OFFSET..c] == Zeros(c - PACKET_OFFSET);
  }

  /** Splicing the IR block in at the cursor of a well-laid-out buffer yields
      a well-laid-out buffer with its four packets pending after the others. */
  lemma IrScanLayout(s: seq<uint8>, c: nat, ps: seq<Chunk>, count: nat,
                     bitLength: uint8, out0: uint8, out1: uint8, endState: uint8,
                     t: seq<uint8>, c2: nat, ps2: seq<Chunk>, count2: nat)
    requires Layout(s, c, ps, count) && c + 64 <= MAX_USB_BUFFER_BYTE_SIZE
    requires t == s[..c] + IrScanBytes(IrScanTemplate(bitLength, out0, out1, endState)) + s[c + 64..]
    requires c2 == c + 64 && ps2 == ps + IrScanChunks(bitLength, out0, out1, endState) && count2 == count + 4
    ensures Layout(t, c2, ps2, count2)
  {
    var b := IrScanBytes(IrScanTemplate(bitLength, out0, out1, endState));
    SpliceLayout(s, c, b, t);
    IrScanBlockIsChunks(ps, bitLength, out0, out1, endState);
  }

  /** Skipping zero bytes past the cursor extends the layout by a gap. */
  lemma GapLayout(s: seq<uint8>, c: nat, ps: seq<Chunk>, count: nat, c2: nat, ps2: seq<Chunk>)
    requires Layout(s, c, ps, count) && c <= c2 <= MAX_USB_BUFFER_BYTE_SIZE
    requires ps2 == ps + [Gap(c2 - c)]
    ensures Layout(s, c2, ps2, count)
  {
    assert s[PACKET_OFFSET..c2] == s[PACKET_OFFSET..c] + Zeros(c2 - c) by {
      assert s[PACKET_OFFSET..c2] == s[PACKET_OFFSET..c] + s[c..c2];
      assert s[c..c2] == Zeros(c2 - c);
    }
    SerializeSnoc(ps, Gap(c2 - c));
  }

  /** Writing the four variable bytes of a valid IR block yields the block with those values. */
  lemma TemplateRewrite(t: seq<uint8>, bitLength: uint8, out0: uint8, out1: uint8, endState: uint8)
    requires IsIrTemplate(t)
    ensures t[IR_SET_LEN_DATA0 := bitLength][IR_DATA_DATA0 := out0][IR_DATA_DATA1 := out1][IR_END_STATE_DATA0 := endState]
         == IrScanBytes(IrScanTemplate(bitLength, out0, out1, endState))
  {
    var u := t[IR_SET_LEN_DATA0 := bitLength][IR_DATA_DATA0 := out0][IR_DATA_DATA1 := out1][IR_END_STATE_DATA0 := endState];
    var e := IrScanBytes(IrScanTemplate(bitLength, out0, out1, endState));
    forall i | 0 <= i < |u| ensures u[i] == e[i] {
    }
  }
}
