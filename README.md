# eFP6 (revision B) packet engine

This project models the host-side packet engine that drives an Embedded FlashPro6 JTAG probe. The probe is driven over USB HID, and the engine exists in two copies:

- the live driver, `microsemi_efp6_client2.c`;
- an earlier variant, `eFP6client2.c`.

Both copies keep the same process-wide state, which is modelled as the class `Engine.PacketEngine`:

- a 1024-byte outgoing report `usbInBuffer`;
- a 1024-byte response report `usbOutBuffer`;
- the write cursor `bytesInBuffer`, which starts at 4, just past the packet-count word;
- the 8-bit packet count `packetsInBuffer`;
- the static 64-byte IR-scan block `fullScan`;
- the open device.

Packets are appended in place at the cursor. A packet is:

- a 12-byte preamble of six little-endian 16-bit words: start code, opcode, address high, address low, length high, length low;
- the payload;
- padding;
- a 2-byte CRC slot.

Appends skip the padding, the CRC slot, the payload when no buffer is passed and, for target address 0, the address words and the high length word. This is sound only because every byte from the cursor on is zero. That zero-tail invariant is part of `PacketEngine.Valid`, and `Wire.AppendWritesFrame` proves the consequence: over a zero tail, the skipped stores leave exactly the canonical packet encoding at the cursor.

A flush works in four steps:

1. It stamps the count into byte 0 and writes the whole report.
2. It clears only the span written since the last flush.
3. It reads the response.
4. It resets the cursor and count, but only after a full 1024-byte read.

Each operation is specified in two layers:

- **Values.** The `Transaction` module holds `Snapshot`, the observable state: the pending chunks, cursor, count, scripted transport results, the reports sent so far and the response bytes. It also holds pure functions (`Append`, `Flush`, `Retrieve`, …) that state each operation's effect on a snapshot.
- **Methods.** The class methods and the driver façades are proved to move the engine's `Snap()` exactly as those functions say.

Lemmas about the functions state what the drivers promise:

- flush outcomes;
- "a state move flushes if and only if the state is reset";
- the IR block equals four generic appends;
- the DR padding and alignment;
- read-back copies `ceil(bits/8)` bytes exactly when the exchange succeeded.

Modules:

- `Bytes`: byte and word types, little-endian 16-bit encoding.
- `Api2`: the constants and packed layouts of `microsemi_efp6_api2.h`.
- `Wire`: canonical packet encoding, the literal store sequences of the header writers and the append, the padding and alignment arithmetic, and the transmitted frame.
- `Hid`: the HID transport as a device whose write results and read replies are scripted; it logs every report it is sent.
- `Transaction`: the value-level specification of append, flush, send and read-back.
- `Engine`: the shared buffer, cursor, count and IR block, and the primitives both driver copies have in common.
- `Client2`: the live driver's façade (frequency, TRST, state moves, run-test, IR/DR scan, scan dispatch, enumeration matching).
- `Client2Early`: the earlier variant's façade, which differs in status plumbing, frequency units, TRST polarity and enumeration.

### Where the code falls short of its own messages

The model follows the code in each of these cases. The first two are also findings below, each with a corrected definition.

- **Short or timed-out read.** The flush logs "Failed to read data from USB buffer. Programmer reset is required." when its read returns fewer than 1024 bytes (`src/jtag/drivers/microsemi_flashpro/microsemi_efp6_client2.c:154-157`). It then returns that count without resetting the cursor or count. A timed-out read returns 0, which equals `EFP6_2_RESPONSE_OK`, so the caller sees success while the wiped packets are still counted (`Transaction.TimedOutReadReportsSuccess`).
- **Frequency range guard.** The warning at `microsemi_efp6_client2.c:401` says the frequency range is 4 MHz - 20 MHz and that a default is set instead. In both copies, the range test guarding it is a conjunction (`< 4 && > 20`) that can never hold, so the value is sent unchanged (`Client2.TckOutOfRangeIsSent`, `Client2Early.EarlyTck`).
- **Capacity.** The code has no capacity check; the model states capacity as a precondition. For run-test, where a legal cycle count exceeds the capacity, see the findings below.

## Model

| member | source | states |
|---|---|---|
| Api2.PacketAtomicBytes | openocd-softconsole-src/src/jtag/drivers/microsemi_flashpro/microsemi_efp6_api2.h:67-77 | a packed atomic packet is 16 bytes and its two data bytes sit at offsets 12 and 13 |
| Api2.IrScanBytes | openocd-softconsole-src/src/jtag/drivers/microsemi_flashpro/microsemi_efp6_api2.h:79-85 | the IR scan block is four atomic packets, 64 bytes |
| Api2.IrScanTemplate | src/jtag/drivers/microsemi_flashpro/microsemi_efp6_client2.c:574-616 | defines the static IR block's four packets with their per-scan bytes as parameters; its bytes are stated by `Engine.IrScanBlockIsChunks` |
| Bytes.Zeros | src/jtag/drivers/microsemi_flashpro/microsemi_efp6_client2.c:150 | a cleared span has the requested length and every byte zero |
| Bytes.Le16 | src/jtag/drivers/microsemi_flashpro/microsemi_efp6_client2.c:64-72 | a `uint16_t` store writes two bytes whose little-endian value is the stored value mod 65536 |
| Bytes.Le16Value | src/jtag/drivers/microsemi_flashpro/microsemi_efp6_client2.c:64-72 | the low and high bytes of a store recombine to the value mod 65536 |
| Bytes.Le16Mod | src/jtag/drivers/microsemi_flashpro/microsemi_efp6_client2.c:64-72 | storing a value or that value mod 65536 writes the same bytes |
| Bytes.Get16OfLe16 | src/jtag/drivers/microsemi_flashpro/microsemi_efp6_client2.c:64-72 | reading back a stored word yields the value mod 65536 |
| Wire.Header | src/jtag/drivers/microsemi_flashpro/microsemi_efp6_client2.c:61-78 | the canonical preamble is 12 bytes |
| Wire.HeaderRoundTrip | openocd-softconsole-src/src/jtag/drivers/microsemi_flashpro/microsemi_efp6_api2.h:55-63 | decoding an encoded preamble returns the start code, opcode, full 32-bit address and full 32-bit length |
| Wire.PacketBytes | openocd-softconsole-src/src/jtag/drivers/microsemi_flashpro/microsemi_efp6_api2.h:55-64 | a packet occupies 14 bytes plus payload plus padding |
| Wire.Body | src/jtag/drivers/microsemi_flashpro/microsemi_efp6_client2.c:171-176 | the payload area holds exactly the requested length, copied from the caller or left zero |
| Wire.PacketAtomicIsFramed | openocd-softconsole-src/src/jtag/drivers/microsemi_flashpro/microsemi_efp6_api2.h:67-77 | the packed atomic struct is byte for byte the canonical packet with address 0, length 2 and a zero CRC |
| Wire.Put16 | src/jtag/drivers/microsemi_flashpro/microsemi_efp6_client2.c:64-72 | a word store keeps the buffer length; its bytes are stated by `Wire.Put16Extends` and `Engine.PacketEngine.Store16` |
| Wire.CopyTo | src/jtag/drivers/microsemi_flashpro/microsemi_efp6_client2.c:175 | the payload `memcpy` keeps the buffer length; over a zero tail its effect is stated by `Wire.PayloadStep` |
| Wire.FullHeaderWrites | src/jtag/drivers/microsemi_flashpro/microsemi_efp6_client2.c:61-78 | the six stores of the full header keep the buffer length; what they write is stated by `Wire.FullHeaderWritesHeader` |
| Wire.SimplifiedHeaderWrites | src/jtag/drivers/microsemi_flashpro/microsemi_efp6_client2.c:81-101 | the three stores of the simplified header keep the buffer length; what they write is stated by `Wire.SimplifiedHeaderLayout` |
| Wire.PayloadWrites | src/jtag/drivers/microsemi_flashpro/microsemi_efp6_client2.c:171-176 | the payload copy keeps the buffer length; what it writes is stated by `Wire.PayloadStep` |
| Wire.HeaderWrites | src/jtag/drivers/microsemi_flashpro/microsemi_efp6_client2.c:181-189 | the header choice keeps the buffer length; what it writes is stated by `Wire.HeaderStep` |
| Wire.AppendWrites | src/jtag/drivers/microsemi_flashpro/microsemi_efp6_client2.c:168-189 | the stores of one append keep the buffer length; what they write is stated by `Wire.AppendWritesFrame` |
| Wire.Mask20Store | src/jtag/drivers/microsemi_flashpro/microsemi_efp6_client2.c:69-72 | masking with `0xfffff` before a 16-bit store writes the same bytes as taking the value mod 65536 |
| Wire.Put16Extends | src/jtag/drivers/microsemi_flashpro/microsemi_efp6_client2.c:64-72 | a word store just after a spliced prefix extends that prefix by the word's two little-endian bytes and leaves the rest of the buffer alone |
| Wire.FullHeaderWritesHeader | src/jtag/drivers/microsemi_flashpro/microsemi_efp6_client2.c:61-78 | the full header's six stores splice exactly the canonical preamble in at the cursor and touch nothing else |
| Wire.SimplifiedHeaderLayout | src/jtag/drivers/microsemi_flashpro/microsemi_efp6_client2.c:81-101 | the simplified header writes start code, opcode and low length word, and keeps the six buffer bytes of the address and high length words |
| Wire.SimplifiedIsCanonical | src/jtag/drivers/microsemi_flashpro/microsemi_efp6_client2.c:81-101 | over six zero bytes and a length below 65536, the simplified header equals the canonical preamble with address 0 |
| Wire.SimplifiedHeaderWritesHeader | src/jtag/drivers/microsemi_flashpro/microsemi_efp6_client2.c:81-101 | over zero address and high-length words, the simplified stores splice in the canonical address-0 preamble |
| Wire.PayloadStep | src/jtag/drivers/microsemi_flashpro/microsemi_efp6_client2.c:171-176 | over a zero tail, the payload copy leaves the payload at cursor+12 (zeros when no buffer is passed) and the preamble area still zero |
| Wire.AppendWritesFrame | src/jtag/drivers/microsemi_flashpro/microsemi_efp6_client2.c:168-189 | over a zero tail, an append's skipped stores still leave exactly the canonical packet (header with length = payload + padding, payload, zero padding, zero CRC) at the cursor and nothing else changed |
| Wire.FramedSplice | src/jtag/drivers/microsemi_flashpro/microsemi_efp6_client2.c:168-195 | preamble, payload and the untouched zero tail together form the canonical packet followed by the rest of the buffer |
| Wire.AppendWritesSplice | src/jtag/drivers/microsemi_flashpro/microsemi_efp6_client2.c:168-189 | over a zero tail, an append writes the canonical preamble followed by the payload |
| Wire.HeaderStep | src/jtag/drivers/microsemi_flashpro/microsemi_efp6_client2.c:181-189 | over a zero preamble area, either header choice splices in the canonical preamble |
| Wire.BytesForBits | src/jtag/drivers/microsemi_flashpro/microsemi_efp6_client2.c:216 | the byte count is the least n with 8n ≥ bit length, i.e. ceil(bits/8) |
| Wire.Padding16 | src/jtag/drivers/microsemi_flashpro/microsemi_efp6_client2.c:678-684 | padding is below 16, brings the payload to a multiple of 16, and equals (16 − n mod 16) mod 16 |
| Wire.AlignUp4 | src/jtag/drivers/microsemi_flashpro/microsemi_efp6_client2.c:686-689 | the aligned cursor is a multiple of 4, at most 3 past the old one, and stays within the report |
| Wire.AlignUp4Least | src/jtag/drivers/microsemi_flashpro/microsemi_efp6_client2.c:686-689 | the aligned cursor is the least multiple of 4 not below the old one |
| Wire.PaddedPayloadBound | src/jtag/drivers/microsemi_flashpro/microsemi_efp6_client2.c:676-685 | for 16 < bits ≤ 4096, the padded DR payload is a multiple of 16 and at most 512 bytes |
| Wire.WireFrame | src/jtag/drivers/microsemi_flashpro/microsemi_efp6_client2.c:137-143 | the transmitted report is exactly 1024 bytes whenever the pending packets fit |
| Wire.Serialize | src/jtag/drivers/microsemi_flashpro/microsemi_efp6_client2.c:168-195 | defines the bytes of the pending packets, chunk after chunk, as the appends leave them from byte 4 |
| Wire.CountPackets | src/jtag/drivers/microsemi_flashpro/microsemi_efp6_client2.c:191-194 | defines the packet count of the pending chunks: one per framed packet, none for an alignment gap |
| Wire.SerializeSnoc | src/jtag/drivers/microsemi_flashpro/microsemi_efp6_client2.c:191-193 | one more pending chunk extends the pending bytes by its bytes and the count by its packets |
| Wire.FrameLayout | src/jtag/drivers/microsemi_flashpro/microsemi_efp6_client2.c:137-143 | stamping the count into byte 0 of a well-laid-out buffer yields the frame: count word, the pending packets, zeros |
| Hid.Received | src/jtag/drivers/microsemi_flashpro/microsemi_efp6_client2.c:153-157 | a full read delivers the reply's bytes, and a failed or timed-out read leaves the response buffer as it was |
| Hid.HidDevice.constructor | src/jtag/drivers/microsemi_flashpro/microsemi_efp6_client2.c:297-328 | a device starts with the scripted results and nothing sent |
| Hid.HidDevice.Write | src/jtag/drivers/microsemi_flashpro/microsemi_efp6_client2.c:143 | a write returns the next scripted result and logs the report |
| Hid.HidDevice.Read | src/jtag/drivers/microsemi_flashpro/microsemi_efp6_client2.c:153 | a read returns the next scripted count and fills the response as `Received` says |
| Transaction.Append | src/jtag/drivers/microsemi_flashpro/microsemi_efp6_client2.c:168-195 | defines one append: the packet pending after the others, the cursor past its 14 + payload + padding bytes, the count plus one; the bytes it leaves are stated by `Engine.AppendLayout` and `Wire.AppendWritesFrame` |
| Transaction.AppendIrBlock | src/jtag/drivers/microsemi_flashpro/microsemi_efp6_client2.c:623-649 | defines the IR block copy: four packets, 64 bytes, count plus 4; that it equals four appends is stated by `Client2.IrBlockIsFourAppends` |
| Transaction.Align | src/jtag/drivers/microsemi_flashpro/microsemi_efp6_client2.c:686-689 | defines the DR alignment: the cursor rounded up over zero bytes, no packet counted; its arithmetic is stated by `Wire.AlignUp4` and `Wire.AlignUp4Least`, its bytes by `Engine.GapLayout` |
| Transaction.Exchange | src/jtag/drivers/microsemi_flashpro/microsemi_efp6_client2.c:149-164 | after a successful write, clearing, reading and the conditional reset keep the snapshot ready (cursor at least 4, full-size response); the engine invariant itself is proved by `Engine.PacketEngine.CompleteExchange` |
| Transaction.Flush | src/jtag/drivers/microsemi_flashpro/microsemi_efp6_client2.c:104-165 | a flush keeps the snapshot ready (cursor at least 4, full-size response); its outcomes are stated by `FlushOutcomes` and the engine invariant by `Engine.PacketEngine.FlushUsbBuffer` |
| Transaction.ConstructAndSend | src/jtag/drivers/microsemi_flashpro/microsemi_efp6_client2.c:199-207 | append then flush keeps the snapshot ready (cursor at least 4, full-size response); the engine invariant is proved by `Engine.PacketEngine.ConstructAndSendPacket` |
| Transaction.Retrieve | src/jtag/drivers/microsemi_flashpro/microsemi_efp6_client2.c:210-233 | read-back keeps the snapshot ready (cursor at least 4, full-size response); its copy is stated by `RetrieveCopies` |
| Transaction.FlushSendsPending | src/jtag/drivers/microsemi_flashpro/microsemi_efp6_client2.c:137-143 | every flush sends one 1024-byte report: the count, then exactly the pending packets, then zeros |
| Transaction.FlushOutcomes | src/jtag/drivers/microsemi_flashpro/microsemi_efp6_client2.c:137-165 | a negative write returns it with pending bytes, cursor and count unchanged; a short read returns its count with the buffer wiped but cursor and count kept; a full read returns OK with cursor 4, count 0 and the reply as response |
| Transaction.FlushStatusOk | src/jtag/drivers/microsemi_flashpro/microsemi_efp6_client2.c:137-165 | a flush reports OK if and only if the write succeeded and the read was full or timed out with 0 bytes |
| Transaction.TimedOutReadReportsSuccess | src/jtag/drivers/microsemi_flashpro/microsemi_efp6_client2.c:153-157 | a read timeout reports OK yet keeps cursor and count, with the counted packets already wiped to zeros |
| Transaction.FlushChecked | src/jtag/drivers/microsemi_flashpro/microsemi_efp6_client2.c:137-165 | the flush with the short-read check its log message asks for: a read that timed out with nothing reports `RESPONSE_PACKET_SIZE_ERROR`; the state it leaves is the flush's |
| Transaction.FlushCheckedStatus | src/jtag/drivers/microsemi_flashpro/microsemi_efp6_client2.c:153-163 | the checked flush reports OK if and only if the write succeeded and all 1024 bytes came back, and then cursor 4, count 0 and nothing pending; it leaves the same state as the flush as written and differs from it in status exactly on a timed-out read |
| Transaction.RetrieveCopies | src/jtag/drivers/microsemi_flashpro/microsemi_efp6_client2.c:210-233 | read-back appends a read-TDO packet and flushes; it copies bytes if and only if the flush is OK, and then exactly ceil(bits/8) bytes from the start of the response |
| Engine.Layout | src/jtag/drivers/microsemi_flashpro/microsemi_efp6_client2.c:26-33 | defines the buffer invariant: count word zero above byte 0, the pending packets' bytes from byte 4 to the cursor, zeros after it, and a count that matches; its preservation is stated by the `*Layout` lemmas below |
| Engine.SerializeFour | src/jtag/drivers/microsemi_flashpro/microsemi_efp6_client2.c:623-649 | four chunks appended at once add their bytes in order and their packets to the count |
| Engine.SerializeTwo | src/jtag/drivers/microsemi_flashpro/microsemi_efp6_client2.c:191-193 | two chunks appended add their bytes in order and their packets to the count |
| Engine.IrScanBlockIsChunks | src/jtag/drivers/microsemi_flashpro/microsemi_efp6_client2.c:571-616 | the IR block's 64 bytes are the four packets set-length, load-from-register, shift-IR and end-state, counting four |
| Engine.IrScanMatchesAppends | src/jtag/drivers/microsemi_flashpro/microsemi_efp6_client2.c:618-649 | over a zero tail, the IR block copy leaves the same bytes as four generic simplified-header appends of those packets |
| Engine.AtomicAppendStep | src/jtag/drivers/microsemi_flashpro/microsemi_efp6_client2.c:168-195 | one generic two-byte append over a zero tail writes the packed atomic packet and keeps the tail zero |
| Engine.SpliceLayout | src/jtag/drivers/microsemi_flashpro/microsemi_efp6_client2.c:171-179 | splicing bytes in at the cursor moves the zero tail past them and extends the pending span by exactly those bytes |
| Engine.EmptyLayout | src/jtag/drivers/microsemi_flashpro/microsemi_efp6_client2.c:301-302 | a fully cleared buffer with cursor 4 and count 0 satisfies the invariant |
| Engine.AppendLayout | src/jtag/drivers/microsemi_flashpro/microsemi_efp6_client2.c:168-195 | an append preserves the invariant with the packet pending after the others |
| Engine.CountBound | src/jtag/drivers/microsemi_flashpro/microsemi_efp6_client2.c:32 | since every packet takes at least 14 bytes, packets that fit the report cannot wrap the 8-bit count |
| Engine.StampLayout | src/jtag/drivers/microsemi_flashpro/microsemi_efp6_client2.c:137 | writing the count into byte 0 preserves the invariant |
| Engine.WipedLayout | src/jtag/drivers/microsemi_flashpro/microsemi_efp6_client2.c:150-157 | after a short read, the cleared buffer with the old cursor and count still satisfies the invariant |
| Engine.IrScanLayout | src/jtag/drivers/microsemi_flashpro/microsemi_efp6_client2.c:623-649 | the IR block copy preserves the invariant with its four packets pending |
| Engine.GapLayout | src/jtag/drivers/microsemi_flashpro/microsemi_efp6_client2.c:686-689 | skipping zero bytes to an aligned cursor preserves the invariant and counts no packet |
| Engine.TemplateRewrite | src/jtag/drivers/microsemi_flashpro/microsemi_efp6_client2.c:618-621 | rewriting the four per-scan bytes of the static block yields the block for the new values |
| Engine.PacketEngine.Valid | src/jtag/drivers/microsemi_flashpro/microsemi_efp6_client2.c:26-33 | defines the engine invariant: the buffers' sizes and distinctness, and `Layout` over the outgoing report; every method below requires and ensures it |
| Engine.PacketEngine.constructor | src/jtag/drivers/microsemi_flashpro/microsemi_efp6_client2.c:26-33 | a session opened in a fresh process (globals at their initial values, both reports cleared by the open) has cursor 4, count 0, nothing pending and the IR block in its initial form |
| Engine.PacketEngine.Store16 | src/jtag/drivers/microsemi_flashpro/microsemi_efp6_client2.c:64-72 | a word store writes its two little-endian bytes |
| Engine.PacketEngine.AddUsbPacketHeader | src/jtag/drivers/microsemi_flashpro/microsemi_efp6_client2.c:61-78 | the full header leaves exactly the canonical preamble at the cursor |
| Engine.PacketEngine.AddUsbPacketHeaderSimpler | src/jtag/drivers/microsemi_flashpro/microsemi_efp6_client2.c:81-101 | the simplified header writes start code, opcode and low length word and keeps the other six bytes |
| Engine.PacketEngine.CopyPayload | src/jtag/drivers/microsemi_flashpro/microsemi_efp6_client2.c:171-176 | the payload is copied to cursor+12 only when a buffer is passed |
| Engine.PacketEngine.WritePacket | src/jtag/drivers/microsemi_flashpro/microsemi_efp6_client2.c:168-189 | over a zero tail, the append's stores leave exactly the canonical packet at the cursor |
| Engine.PacketEngine.WriteHeader | src/jtag/drivers/microsemi_flashpro/microsemi_efp6_client2.c:181-189 | the full header is used if and only if the target address is non-zero |
| Engine.PacketEngine.AddPacketToUsbBuffer | src/jtag/drivers/microsemi_flashpro/microsemi_efp6_client2.c:168-195 | an append keeps the invariant and adds the packet: cursor + 14 + payload + padding, count + 1 |
| Engine.PacketEngine.CountPacket | src/jtag/drivers/microsemi_flashpro/microsemi_efp6_client2.c:191-193 | the cursor advances by the packet's size and the count by one |
| Engine.PacketEngine.FlushUsbBuffer | src/jtag/drivers/microsemi_flashpro/microsemi_efp6_client2.c:104-165 | a flush moves the engine exactly as `Transaction.Flush` says; a failed write leaves only byte 0 stamped, and a successful one leaves the outgoing report all zero |
| Engine.PacketEngine.CompleteExchange | src/jtag/drivers/microsemi_flashpro/microsemi_efp6_client2.c:149-164 | clearing, reading and the conditional reset move the engine as `Transaction.Exchange` says |
| Engine.PacketEngine.ClearWritten | src/jtag/drivers/microsemi_flashpro/microsemi_efp6_client2.c:150 | clearing only the span before the cursor leaves the whole report zero |
| Engine.PacketEngine.ConstructAndSendPacket | src/jtag/drivers/microsemi_flashpro/microsemi_efp6_client2.c:199-207 | append with no padding, then flush unconditionally, as `Transaction.ConstructAndSend` says |
| Engine.PacketEngine.RetrieveData | src/jtag/drivers/microsemi_flashpro/microsemi_efp6_client2.c:210-233 | read-back moves the engine and copies the response as `Transaction.Retrieve` says |
| Engine.PacketEngine.SetIrScanFields | src/jtag/drivers/microsemi_flashpro/microsemi_efp6_client2.c:618-621 | the static block holds the packets for the bit length and end state (both truncated to a byte) and the two output bytes |
| Engine.PacketEngine.CopyIrBlock | src/jtag/drivers/microsemi_flashpro/microsemi_efp6_client2.c:623-645 | the word-by-word copy puts the 64 block bytes at the cursor and changes nothing else |
| Engine.PacketEngine.CopyIrScan | src/jtag/drivers/microsemi_flashpro/microsemi_efp6_client2.c:618-649 | the IR fast path adds the four block packets: 64 bytes, count + 4 |
| Engine.PacketEngine.CountIrBlock | src/jtag/drivers/microsemi_flashpro/microsemi_efp6_client2.c:648-649 | the cursor advances by 64 and the count by 4 |
| Engine.PacketEngine.AlignBytesInBuffer | src/jtag/drivers/microsemi_flashpro/microsemi_efp6_client2.c:686-689 | the cursor is rounded up to a multiple of 4 without counting a packet |
| Client2.CDiv | src/jtag/drivers/microsemi_flashpro/microsemi_efp6_client2.c:391 | C integer division truncates toward zero for either sign |
| Client2.DivBounds | src/jtag/drivers/microsemi_flashpro/microsemi_efp6_client2.c:391 | the quotient of non-negative division is the floor |
| Client2.TckMegahertz | src/jtag/drivers/microsemi_flashpro/microsemi_efp6_client2.c:384-391 | -1 and 0 select the 12 MHz default; any other value is divided by 10^6, truncating toward zero |
| Client2.TckOutOfRangeIsSent | src/jtag/drivers/microsemi_flashpro/microsemi_efp6_client2.c:391-403 | a frequency outside 4-20 MHz still yields a value outside that range, and it is the truncated MHz value, since the guard never fires |
| Client2.TckMegahertzGuarded | src/jtag/drivers/microsemi_flashpro/microsemi_efp6_client2.c:393-403 | the conversion with the range test the comment and warning describe: the result always lies in 4-20 MHz, equals the as-written value whenever that lies in range, and is the 12 MHz default otherwise |
| Client2.FrequencyPayload | src/jtag/drivers/microsemi_flashpro/microsemi_efp6_client2.c:405-406 | the frequency payload is 16 bytes |
| Client2.FrequencyPacket | src/jtag/drivers/microsemi_flashpro/microsemi_efp6_client2.c:404-407 | defines the frequency packet: send-packet opcode, the frequency target address, a 16-byte payload; its layout is stated by `FrequencyPacketLayout` |
| Client2.InterruptPacket | src/jtag/drivers/microsemi_flashpro/microsemi_efp6_client2.c:408-409 | defines the interrupt packet: the frequency-interrupt opcode with no payload and address 0 |
| Client2.FrequencyPacketLayout | src/jtag/drivers/microsemi_flashpro/microsemi_efp6_client2.c:405-408 | the frequency packet has a full header to 0xA0FFFFF0 with length 16, opcode SEND_PACKET, payload byte 0 SET_TCK_FREQUENCY and byte 1 the MHz value |
| Client2.SetTckFrequencyEffect | src/jtag/drivers/microsemi_flashpro/microsemi_efp6_client2.c:371-415 | setting the frequency keeps the snapshot ready (cursor at least 4, full-size response); its sends are stated by `SetTckFrequencySends` |
| Client2.SetTckFrequencySends | src/jtag/drivers/microsemi_flashpro/microsemi_efp6_client2.c:405-414 | the first report sent carries the frequency packet; a second report (the interrupt) is sent if and only if the first exchange was OK; otherwise its outcome is returned; that second report carries the interrupt packet behind whatever the first exchange left pending |
| Client2.TrstPayload | src/jtag/drivers/microsemi_flashpro/microsemi_efp6_client2.c:458-463 | the pin payload is 2 bytes |
| Client2.SetTrstEffect | src/jtag/drivers/microsemi_flashpro/microsemi_efp6_client2.c:454-470 | setting TRST keeps the snapshot ready (cursor at least 4, full-size response); its polarity is compared with the early copy by `Client2Early.EarlyTrstIsInverted` |
| Client2.StatePacket | src/jtag/drivers/microsemi_flashpro/microsemi_efp6_client2.c:498-500 | defines the state-move packet: the atomic opcode and the state as a little-endian 16-bit word; its layout is stated by `StatePacketLayout` |
| Client2.StatePacketLayout | src/jtag/drivers/microsemi_flashpro/microsemi_efp6_client2.c:492-507 | a state move is one 16-byte atomic packet: opcode 0x2A, address 0, length 2, the state as a 16-bit word |
| Client2.StateMove | src/jtag/drivers/microsemi_flashpro/microsemi_efp6_client2.c:492-511 | a state move keeps the snapshot ready (cursor at least 4, full-size response); its sends are stated by `StateMoveFlushesIffReset` |
| Client2.StateMoveFlushesIffReset | src/jtag/drivers/microsemi_flashpro/microsemi_efp6_client2.c:492-511 | a state move sends a report if and only if the state is reset (15); otherwise it only appends and returns OK, and on reset the report carries that packet last |
| Client2.IdleChunks | src/jtag/drivers/microsemi_flashpro/microsemi_efp6_client2.c:547-552 | k idle moves are k chunks |
| Client2.Idles | src/jtag/drivers/microsemi_flashpro/microsemi_efp6_client2.c:547-550 | k idle moves advance the cursor by 16k and the count by k, and send nothing |
| Client2.IdlesQueue | src/jtag/drivers/microsemi_flashpro/microsemi_efp6_client2.c:547-550 | k idle moves leave exactly k idle packets pending after the old ones |
| Client2.IdleStep | src/jtag/drivers/microsemi_flashpro/microsemi_efp6_client2.c:547-550 | one more idle move from k moves gives k + 1 moves and returns OK |
| Client2.RunTestEffect | src/jtag/drivers/microsemi_flashpro/microsemi_efp6_client2.c:537-557 | run-test keeps the snapshot ready (cursor at least 4, full-size response); its queue is stated by `RunTestQueuesIdles` |
| Client2.RunTestQueuesIdles | src/jtag/drivers/microsemi_flashpro/microsemi_efp6_client2.c:537-557 | run-test returns OK after queueing num_cycles + 1 idle packets whatever the end state; cursor + 16 per move, nothing sent |
| Client2.RunTestOverflows | src/jtag/drivers/microsemi_flashpro/microsemi_efp6_client2.c:547-552 | as written, 63 cycles from an empty buffer queue 64 idle packets and leave the cursor at 1028, past the 1024-byte report |
| Client2.RoomFor | src/jtag/drivers/microsemi_flashpro/microsemi_efp6_client2.c:104-165 | defines making room for `n` bytes: nothing when they fit, else a flush, and RESPONSE_PACKET_SIZE_ERROR when an OK flush leaves no room; stated by `RoomForFits` |
| Client2.RoomForFits | src/jtag/drivers/microsemi_flashpro/microsemi_efp6_client2.c:104-165 | making room succeeds only with room to spare for the next packet, and changes nothing exactly when the bytes already fit |
| Client2.FlushingIdles | src/jtag/drivers/microsemi_flashpro/microsemi_efp6_client2.c:537-557 | defines the corrected run-test: room is made before each idle move and the first failure ends the run; stated by `FlushingIdlesFits` and `FlushingIdlesAgrees` |
| Client2.FlushingIdlesFits | src/jtag/drivers/microsemi_flashpro/microsemi_efp6_client2.c:537-557 | the corrected run-test never moves the cursor past the report, whatever the cycle count |
| Client2.IdlesShift | src/jtag/drivers/microsemi_flashpro/microsemi_efp6_client2.c:547-552 | one idle move in front of `k - 1` is the same queue as `k` idle moves |
| Client2.FlushingIdlesAgrees | src/jtag/drivers/microsemi_flashpro/microsemi_efp6_client2.c:537-557 | whenever all the idle packets fit, the corrected run-test does exactly what the code as written does |
| Client2.IrScanEffect | src/jtag/drivers/microsemi_flashpro/microsemi_efp6_client2.c:566-663 | an IR scan keeps the snapshot ready (cursor at least 4, full-size response); its sends and read-back are stated by `IrScanFlushesIffReset` and `ScanReadBack` |
| Client2.IrBlockIsFourAppends | src/jtag/drivers/microsemi_flashpro/microsemi_efp6_client2.c:571-649 | the IR block adds the same pending packets as four appends: set-length (bit length), load-from-register (out[0], out[1]), atomic SHIFT_IR, atomic end state |
| Client2.IrScanFlushesIffReset | src/jtag/drivers/microsemi_flashpro/microsemi_efp6_client2.c:648-660 | without read-back, an IR scan sends a report if and only if the end state is reset, and otherwise returns OK with 64 bytes and 4 packets added |
| Client2.DrPayloadLength | src/jtag/drivers/microsemi_flashpro/microsemi_efp6_client2.c:676-691 | above 16 bits the DR payload holds every bit |
| Client2.SetLengthPacket | src/jtag/drivers/microsemi_flashpro/microsemi_efp6_client2.c:673-674 | defines the set-length packet: the bit length truncated to 16 bits, little-endian |
| Client2.DataPacket | src/jtag/drivers/microsemi_flashpro/microsemi_efp6_client2.c:676-692 | defines the data packet: from DDR with ceil(bits/8) bytes and padding to 16 above 16 bits, otherwise from the register with two bytes; its shape is stated by `DataPacketShape` |
| Client2.ShiftDrPacket | src/jtag/drivers/microsemi_flashpro/microsemi_efp6_client2.c:694-696 | defines the Shift-DR packet: the atomic opcode with the Shift-DR code and a zero byte |
| Client2.DataPacketShape | src/jtag/drivers/microsemi_flashpro/microsemi_efp6_client2.c:676-693 | above 16 bits: a DDR packet of ceil(bits/8) bytes padded to a multiple of 16 (at most 512, no padding at 4096); at most 16 bits: a 2-byte load-from-register packet; the body is the caller's bytes or zeros |
| Client2.DrQueue | src/jtag/drivers/microsemi_flashpro/microsemi_efp6_client2.c:673-698 | the DR encoding adds three packets and sends nothing |
| Client2.DrScanEffect | src/jtag/drivers/microsemi_flashpro/microsemi_efp6_client2.c:666-707 | a DR scan keeps the snapshot ready (cursor at least 4, full-size response); its sends and read-back are stated by `DrScanFlushesIffReset` and `ScanReadBack` |
| Client2.DrQueueLayout | src/jtag/drivers/microsemi_flashpro/microsemi_efp6_client2.c:673-698 | the pending packets are set-length, data, an uncounted alignment gap of under 4 bytes (above 16 bits only) and SHIFT_DR, and the SHIFT_DR packet starts 4-aligned |
| Client2.DrScanFlushesIffReset | src/jtag/drivers/microsemi_flashpro/microsemi_efp6_client2.c:666-707 | without read-back, a DR scan sends a report if and only if the end state is reset, and otherwise returns OK with 4 packets added |
| Client2.ScanReadBack | src/jtag/drivers/microsemi_flashpro/microsemi_efp6_client2.c:656-660 | a scan copies response bytes if and only if the caller wants them and the status is OK, and then exactly ceil(bits/8) bytes from the start of the response |
| Client2.ExecuteScanEffect | src/jtag/drivers/microsemi_flashpro/microsemi_efp6_client2.c:710-736 | scan dispatch keeps the snapshot ready (cursor at least 4, full-size response); the refusal is stated by `ExecuteScanRefusesFields` |
| Client2.ExecuteScanRefusesFields | src/jtag/drivers/microsemi_flashpro/microsemi_efp6_client2.c:717-722 | a scan with more than one field returns ERROR_FAIL with nothing appended or sent |
| Client2.SetTckFrequency | src/jtag/drivers/microsemi_flashpro/microsemi_efp6_client2.c:371-415 | moves the engine as `SetTckFrequencyEffect` says |
| Client2.SetTrst | src/jtag/drivers/microsemi_flashpro/microsemi_efp6_client2.c:454-470 | moves the engine as `SetTrstEffect` says |
| Client2.JtagGotoStateRaw | src/jtag/drivers/microsemi_flashpro/microsemi_efp6_client2.c:492-511 | moves the engine as `StateMove` says, and grows the cursor by at most 16 |
| Client2.JtagGotoState | src/jtag/drivers/microsemi_flashpro/microsemi_efp6_client2.c:515-534 | the command's end state is moved to as `StateMove` says |
| Client2.RunTest | src/jtag/drivers/microsemi_flashpro/microsemi_efp6_client2.c:537-557 | the cycle loop and the final idle move act as `RunTestEffect` says |
| Client2.MakeRoom | src/jtag/drivers/microsemi_flashpro/microsemi_efp6_client2.c:104-165 | making room moves the engine as `RoomFor` says |
| Client2.RunTestFlushing | src/jtag/drivers/microsemi_flashpro/microsemi_efp6_client2.c:537-557 | corrected run-test, for any cycle count and any buffer state: it moves the engine as `FlushingIdles` says and keeps the engine invariant |
| Client2.IrScan | src/jtag/drivers/microsemi_flashpro/microsemi_efp6_client2.c:566-663 | moves the engine and returns the captured bytes as `IrScanEffect` says |
| Client2.FinishIrScan | src/jtag/drivers/microsemi_flashpro/microsemi_efp6_client2.c:651-660 | after the block copy, the flush for reset and the read-back move the engine as `IrScanEffect` says and leave the IR block as it was |
| Client2.DrScan | src/jtag/drivers/microsemi_flashpro/microsemi_efp6_client2.c:666-707 | moves the engine and returns the captured bytes as `DrScanEffect` says |
| Client2.LargestScanFits | openocd-softconsole-src/src/jtag/drivers/microsemi_flashpro/microsemi_efp6_api2.h:7-8 | from an empty report, any shift up to 4096 bits meets the room the IR and DR scans require, with or without read-back, and its bytes fit the 1024-byte response |
| Client2.QueueDrScan | src/jtag/drivers/microsemi_flashpro/microsemi_efp6_client2.c:673-698 | the three DR appends and the alignment move the engine as `DrQueue` says |
| Client2.QueueDrPayload | src/jtag/drivers/microsemi_flashpro/microsemi_efp6_client2.c:673-693 | set-length then data packet, aligned only above 16 bits |
| Client2.QueueDdrData | src/jtag/drivers/microsemi_flashpro/microsemi_efp6_client2.c:676-690 | the padded DDR packet followed by the cursor round-up |
| Client2.ExecuteScan | src/jtag/drivers/microsemi_flashpro/microsemi_efp6_client2.c:710-736 | dispatches to the IR or DR scan as `ExecuteScanEffect` says |
| Client2.Matching | src/jtag/drivers/microsemi_flashpro/microsemi_efp6_client2.c:261-284 | no more devices match than were enumerated; which ones match is stated by `MatchingOnlyMatches` and `MatchingComplete` |
| Client2.MatchingOnlyMatches | src/jtag/drivers/microsemi_flashpro/microsemi_efp6_client2.c:261-278 | every match is an enumerated serial that the empty name or a case-sensitive prefix match accepts |
| Client2.MatchingComplete | src/jtag/drivers/microsemi_flashpro/microsemi_efp6_client2.c:261-278 | every enumerated serial that the filter accepts is among the matches |
| Client2.EmptyNameMatchesAll | src/jtag/drivers/microsemi_flashpro/microsemi_efp6_client2.c:261-266 | an empty name matches every device |
| Client2.NoMatchIffNone | src/jtag/drivers/microsemi_flashpro/microsemi_efp6_client2.c:261-293 | no device is found if and only if no serial matches |
| Client2.LastMatchWins | src/jtag/drivers/microsemi_flashpro/microsemi_efp6_client2.c:261-284 | the chosen serial is a matching one with no match after it |
| Client2.Enumerate | src/jtag/drivers/microsemi_flashpro/microsemi_efp6_client2.c:244-294 | the loop counts the matches and keeps the last match's serial, or the previous one when nothing matches |
| Client2Early.AddPacket | openocd-softconsole-src/src/jtag/drivers/eFP6client2.c:116-143 | an append always returns OK and adds the packet as the live one does |
| Client2Early.ConstructAndSendPacket | openocd-softconsole-src/src/jtag/drivers/eFP6client2.c:147-156 | the flush runs only after an OK append, which always holds, so the effect is the live `Transaction.ConstructAndSend` |
| Client2Early.RetrieveData | openocd-softconsole-src/src/jtag/drivers/eFP6client2.c:159-174 | read-back copies ceil(bits/8) bytes only after an OK read-TDO flush, as `Transaction.Retrieve` says |
| Client2Early.EarlyTck | openocd-softconsole-src/src/jtag/drivers/eFP6client2.c:261-270 | the guard `tckFreq < 4 && tckFreq > 20` never fires, so the MHz value is sent unchanged |
| Client2Early.EarlySetTckFrequencyEffect | openocd-softconsole-src/src/jtag/drivers/eFP6client2.c:261-274 | setting the frequency keeps the snapshot ready (cursor at least 4, full-size response); its unit is compared with the live copy by `EarlyTckMatchesLive` |
| Client2Early.WholeMegahertz | openocd-softconsole-src/src/jtag/drivers/eFP6client2.c:180-189 | the live conversion of a whole MHz value given in Hz gives back that MHz value |
| Client2Early.EarlyTckMatchesLive | openocd-softconsole-src/src/jtag/drivers/eFP6client2.c:261-274 | a non-zero MHz value has the same effect as the live driver given that many MHz in Hz; 0 is sent as 0, where the live driver substitutes 12 |
| Client2Early.SetTckFrequencyCmd | openocd-softconsole-src/src/jtag/drivers/eFP6client2.c:180-189 | sends the frequency packet with the value in payload byte 1 to 0xA0FFFFF0 |
| Client2Early.SetTckFrequency | openocd-softconsole-src/src/jtag/drivers/eFP6client2.c:261-274 | the frequency send, then the interrupt only if it was OK, as `EarlySetTckFrequencyEffect` says |
| Client2Early.EarlySetTrstEffect | openocd-softconsole-src/src/jtag/drivers/eFP6client2.c:305-313 | setting TRST keeps the snapshot ready (cursor at least 4, full-size response); its polarity is stated by `EarlyTrstIsInverted` |
| Client2Early.EarlyTrstIsInverted | openocd-softconsole-src/src/jtag/drivers/eFP6client2.c:305-313 | `SetTrst(true)` is the live driver's `trst == 0` (TRSTB set), and the opposite polarity sends a different pin byte |
| Client2Early.SetTrst | openocd-softconsole-src/src/jtag/drivers/eFP6client2.c:305-313 | TRSTB (0x4) in payload byte 0 for true, zeros for false, sent at once |
| Client2Early.JtagGotoState | openocd-softconsole-src/src/jtag/drivers/eFP6client2.c:330-346 | one atomic packet, flushed if and only if the state is 15, as `Client2.StateMove` says |
| Client2Early.IrScan | openocd-softconsole-src/src/jtag/drivers/eFP6client2.c:349-444 | 4 packets and 64 bytes, a flush on reset, then read-back when wanted, as `Client2.IrScanEffect` says |
| Client2Early.FinishIrScan | openocd-softconsole-src/src/jtag/drivers/eFP6client2.c:434-441 | after the block copy, the early copy's flush for reset and read-back move the engine as `Client2.IrScanEffect` says and leave the IR block as it was |
| Client2Early.DrScan | openocd-softconsole-src/src/jtag/drivers/eFP6client2.c:448-497 | the early-return plumbing produces exactly the live `Client2.DrScanEffect` |
| Client2Early.QueueDrScan | openocd-softconsole-src/src/jtag/drivers/eFP6client2.c:455-485 | the appends all return OK and move the engine as `Client2.DrQueue` says |
| Client2Early.QueueDrPayload | openocd-softconsole-src/src/jtag/drivers/eFP6client2.c:455-481 | set-length then data packet, aligned only above 16 bits, with OK status |
| Client2Early.QueueDdrData | openocd-softconsole-src/src/jtag/drivers/eFP6client2.c:461-475 | the padded DDR packet (16 − n mod 16 when non-zero) and the 4-byte cursor round-up |
| Client2Early.Enumerate | openocd-softconsole-src/src/jtag/drivers/eFP6client2.c:192-213 | counts every device and keeps the last one's serial, which is the live matching with an empty name |

## Left out

- The HID library (`hid_enumerate`, `hid_open`, `hid_write`, `hid_read_timeout`, `hid_read`, `hid_close`) is foreign code. `Hid.HidDevice` stands in for it with scripted write results and read replies. The difference between the early copy's blocking `hid_read` and the live copy's `hid_read_timeout` with its 3500 ms limit shows only as which replies are scripted.
- The Windows report-ID copy, the packet-size statistics, all log and `printf` output, and the `mbstowcs` conversion of the serial number are not modelled. They are platform and diagnostic code.
- The `busy` flag and the spin-wait in close (`microsemi_efp6_client2.c:20`, `331-350`) are not modelled. They serve an asynchronous shutdown, which is a concurrency concern. As a result, the model does not capture that `eFP6_2_executeScan` leaves `busy` set when it refuses a multi-field scan (line 721).
- The open, close, CM3 version, LED, enable/disable-port and read-TCK handshakes of both copies are not modelled beyond the shared primitives they call. They are device management rather than packet engine:
  - open clears both reports, opens the device, sets it blocking, then asks for the CM3 version, sets the LED and enables the JTAG port (`microsemi_efp6_client2.c:297-328`);
  - close spin-waits on `busy`, disables the port, turns the LED off and closes the device (`331-350`);
  - the CM3 version request is one `ConstructAndSendPacket` whose reply's first two bytes are logged (`353-368`);
  - the LED command sends an LED-off packet and, unless the status is off, an LED-on packet with the status byte (`473-489`); enable and disable port send one packet each (`436-451`); none of them reads the reply;
  - read-TCK sends one request to the frequency address and returns byte 5 of the reply, or 0 when the exchange fails (`418-433`).
- Engine.PacketEngine.constructor: it models the first open in a process, with the cursor and count at their initial values. `eFP6_2_open` clears both reports but does not reset `bytesInBuffer` or `packetsInBuffer` (`microsemi_efp6_client2.c:297-302`). A re-open after a session that left packets queued, or after a short read, would therefore start with a stale cursor and count over a cleared buffer. That state breaks `PacketEngine.Valid`, so re-opening is not modelled.
- The enumeration loops model only the count and the choice of serial. Devices are given as their serial strings, and the live copy's fixed-size serial buffer and `wcscpy` into the early copy's global are not modelled.
- The early header `eFP6api2.h` is not part of this model. Its `EFP6_2_*` constants are taken to equal those of `microsemi_efp6_api2.h`, which the same names carry in the live copy.
- Engine.PacketEngine.AddPacketToUsbBuffer: the source never checks capacity. Every append, scan and façade operation requires instead that the packets it adds fit the 1024-byte report. For a scan, that includes the 14-byte read-TDO packet only when it reads back.
- Client2.RunTest: it requires room for all `num_cycles` + 1 idle packets, because the loop never flushes. A legal cycle count can exceed that room; see the findings below and `Client2.RunTestFlushing`.
- Client2.DrScan: it requires its worst-case footprint (`DrScanRoom`) to fit. When it reads back, it also requires ceil(bits/8) ≤ 1024, which the source does not check: `retrieveData` copies that many bytes out of the 1024-byte response.
- Client2.IrScan: it requires `out` to hold at least the two bytes it reads. When it reads back, it also requires ceil(bits/8) ≤ 1024 and room for the read-TDO packet, as `Client2.DrScan` does.
- Client2Early.IrScan: the same preconditions as `Client2.IrScan`.
- Client2Early.DrScan: the same preconditions as `Client2.DrScan`.
- Client2.DrScan: with 16 bits or fewer, it requires `out` to hold the two bytes of the load-from-register packet, which the source reads even when fewer bits are shifted.
- Client2.DrScan: the bit length is an unbounded `nat`. The source's `uint32_t` bit count and the `uint32_t` cursor cannot wrap within the capacity precondition.
- The captured bytes are returned as a value instead of being written into the caller's `in` buffer, so aliasing between `in` and the engine's buffers is not modelled.
- The run-test end state only selects a log message, so it is not modelled.

## Findings

| source | as written | input that shows it | evidently intended | confidence | as-written member | corrected member |
|---|---|---|---|---|---|---|
| src/jtag/drivers/microsemi_flashpro/microsemi_efp6_client2.c:547-552 | run-test queues `num_cycles` + 1 idle packets of 16 bytes each and never flushes or checks capacity; the OpenOCD dispatcher passes the cycle count through unchanged (`openocd-softconsole-src/src/jtag/drivers/microsemi_flashpro/microsemi_flashpro.c:148-155`) | `num_cycles` = 63 on an empty buffer: 64 packets, 1024 bytes after the 4-byte count word, so the cursor reaches 1028 and the last packet is written past the end of `usbInBuffer` | make room before each idle packet by flushing the queue, so any cycle count stays inside the report | not executed | Client2.RunTestOverflows | Client2.RunTestFlushing |
| src/jtag/drivers/microsemi_flashpro/microsemi_efp6_client2.c:393-403 | the comment calls the test the condition for the valid TCK range and the warning says the range is 4-20 MHz and the default is set instead, but the test is `tckFreq < 4 && tckFreq > 20`, which no value meets; the early copy has the same test (`openocd-softconsole-src/src/jtag/drivers/eFP6client2.c:265-269`) | a requested TCK of 30000000 Hz: 30 MHz is sent to the probe, and no warning is logged | test with `||`, so a value outside 4-20 MHz is replaced by the 12 MHz default | not executed | Client2.TckOutOfRangeIsSent | Client2.TckMegahertzGuarded |
| src/jtag/drivers/microsemi_flashpro/microsemi_efp6_client2.c:153-157 | the flush logs that a read shorter than 1024 bytes failed and returns the read's count, but a read that timed out returns 0, which is `EFP6_2_RESPONSE_OK` | a write that succeeds followed by a read that times out with no data: the flush returns OK, the packets it cleared stay counted and the cursor stays where it was | a short read, including an empty one, reports a failure | not executed | Transaction.TimedOutReadReportsSuccess | Transaction.FlushChecked |

`Client2.RunTestFlushing` requires only the engine invariant. It flushes when the next idle packet would not fit (`Client2.RoomFor`, `Client2.MakeRoom`). A failed flush ends the run with the flush's status. A flush whose read times out reports OK but leaves the cursor where it was, so the run then ends with `RESPONSE_PACKET_SIZE_ERROR`. `Client2.FlushingIdlesFits` proves that the cursor never passes the report. `Client2.FlushingIdlesAgrees` proves that whenever the packets fit, the corrected run-test does exactly what the code as written does. `Client2.RunTest` still models the code as written, under its capacity precondition.

`Client2.TckMegahertzGuarded` and `Transaction.FlushChecked` are the corrected definitions of the other two rows. `Client2.SetTckFrequency` and `Engine.PacketEngine.FlushUsbBuffer` still model the code as written, since every operation above them depends on the status they return.
