/** The buffered transaction as plain values: what is pending between the
    count word and the cursor, the device's remaining answers, the reports it
    was sent and the response buffer, and what each buffer operation of the
    engine does to them. The engine's methods are proved to follow these
    functions, and the operations of both drivers are specified by composing
    them. */
module Transaction {
  import opened Bytes
  import opened Api2
  import opened Wire
  import opened Hid

  /** The whole driver state a caller can observe. */
  datatype Snapshot = Snapshot(
    pending: seq<Chunk>,
    cursor: nat,
    count: nat,
    writeResults: seq<int>,
    readReplies: seq<Reply>,
    sent: seq<seq<uint8>>,
    response: seq<uint8>)

  /** The state an operation leaves and the status it returns. */
  datatype Outcome = Outcome(after: Snapshot, status: int)

  /** An operation that may also copy response bytes out to its caller. */
  datatype Scan = Scan(outcome: Outcome, captured: Option<seq<uint8>>)

  /** The cursor never sits inside the count word and the response buffer is a full report. */
  predicate Ready(s: Snapshot)
  {
    PACKET_OFFSET <= s.cursor && |s.response| == MAX_USB_BUFFER_BYTE_SIZE
  }

  /** The packet that asks the probe to return the captured TDO bits. */
  function ReadTdoPacket(): Packet
  {
    Packet(READ_TDO_BUFFER_COMMAND_OPCODE, 0, [], 0)
  }

  /** The four packets of an IR scan, as separate framed packets. */
  function IrScanChunks(bitLength: uint8, out0: uint8, out1: uint8, endState: uint8): seq<Chunk>
  {
    [Framed(AtomicPacket(SET_SHIFT_IR_DR_BIT_LENGTH_OPCODE, bitLength, 0)),
     Framed(AtomicPacket(SHIFT_DATA_FROM_REGISTER, out0, out1)),
     Framed(AtomicPacket(JTAG_ATOMIC_OPCODE, JTAG_SHIFT_IR, 0)),
     Framed(AtomicPacket(JTAG_ATOMIC_OPCODE, endState, 0))]
  }

  /** One packet appended at the cursor: it takes a header, its body, its
      padding and a CRC slot, and adds one to the count. */
  function Append(s: Snapshot, p: Packet): Snapshot
  {
    s.(pending := s.pending + [Framed(p)],
       cursor := s.cursor + PACKET_HEADER_TOTAL_LENGTH + |p.body| + p.padding,
       count := s.count + 1)
  }

  /** The 64-byte IR block copied to the cursor: four packets at once. */
  function AppendIrBlock(s: Snapshot, bitLength: uint8, out0: uint8, out1: uint8, endState: uint8): Snapshot
  {
    s.(pending := s.pending + IrScanChunks(bitLength, out0, out1, endState),
       cursor := s.cursor + 4 * PAYLOAD_ATOMIC_PACKET_LENGTH,
       count := s.count + 4)
  }

  /** The cursor rounded up to a multiple of four over bytes that stay zero. */
  function Align(s: Snapshot): Snapshot
  {
    s.(pending := s.pending + [Gap(AlignUp4(s.cursor) - s.cursor)], cursor := AlignUp4(s.cursor))
  }

  /** The read half of a flush, once the write went through: the span written
      since the last flush is cleared, the response arrives, and only a full
      read resets the cursor and count. A short read returns its byte count,
      so a read that timed out with nothing reads as success. */
  function Exchange(s: Snapshot): (o: Outcome)
    requires Ready(s)
    ensures Ready(o.after)
  {
    var r := FirstRead(s.readReplies);
    var t := s.(readReplies := Rest(s.readReplies), response := Received(s.response, r));
    if r.count < MAX_USB_BUFFER_BYTE_SIZE then
      Outcome(t.(pending := [Wiped(s.cursor - PACKET_OFFSET, s.count)]), r.count)
    else
      Outcome(t.(pending := [], cursor := PACKET_OFFSET, count := 0), RESPONSE_OK)
  }

  /** A flush: the whole report, count in byte 0, goes to the device; a failed
      write returns its value and leaves everything pending. */
  function Flush(s: Snapshot): (o: Outcome)
    requires Ready(s)
    ensures Ready(o.after)
  {
    var w := FirstWrite(s.writeResults);
    var t := s.(writeResults := Rest(s.writeResults), sent := s.sent + [WireFrame(s.count, s.pending)]);
    if w < 0 then Outcome(t, w) else Exchange(t)
  }

  /** One packet without padding, flushed at once. */
  function ConstructAndSend(s: Snapshot, p: Packet): (o: Outcome)
    requires Ready(s)
    ensures Ready(o.after)
  {
    Flush(Append(s, p))
  }

  /** The read-back: a read-TDO packet flushed at once, then the first
      `ceil(bitLength / 8)` response bytes, only when the flush reported success. */
  function Retrieve(s: Snapshot, bitLength: nat): (r: Scan)
    requires Ready(s) && BytesForBits(bitLength) <= MAX_USB_BUFFER_BYTE_SIZE
    ensures Ready(r.outcome.after)
  {
    var o := ConstructAndSend(s, ReadTdoPacket());
    Scan(o, if o.status == RESPONSE_OK then Some(o.after.response[..BytesForBits(bitLength)]) else None)
  }

  // ---------------------------------------------------------------------------
  // What a flush promises

  /** Every flush hands exactly one report to the device, and that report is
      the count in byte 0 followed by every pending byte. */
  lemma FlushSendsPending(s: Snapshot)
    requires Ready(s)
    ensures Flush(s).after.sent == s.sent + [WireFrame(s.count, s.pending)]
    ensures PACKET_OFFSET + |Serialize(s.pending)| <= MAX_USB_BUFFER_BYTE_SIZE
         ==> |WireFrame(s.count, s.pending)| == MAX_USB_BUFFER_BYTE_SIZE
  {
  }

  /** The three ways a flush can end. A failed write keeps every packet
      pending; a short read loses the packets but keeps cursor and count; a
      full read empties the buffer and delivers the whole report. */
  lemma FlushOutcomes(s: Snapshot)
    requires Ready(s)
    ensures var o, w, r := Flush(s), FirstWrite(s.writeResults), FirstRead(s.readReplies);
      && (w < 0 ==> o.status == w && o.after.pending == s.pending && o.after.cursor == s.cursor
                    && o.after.count == s.count && o.after.readReplies == s.readReplies && o.after.response == s.response)
      && (w >= 0 && r.count < MAX_USB_BUFFER_BYTE_SIZE ==>
            o.status == r.count && o.after.pending == [Wiped(s.cursor - PACKET_OFFSET, s.count)]
            && o.after.cursor == s.cursor && o.after.count == s.count)
      && (w >= 0 && r.count == MAX_USB_BUFFER_BYTE_SIZE ==>
            o.status == RESPONSE_OK && o.after.pending == [] && o.after.cursor == PACKET_OFFSET
            && o.after.count == 0 && o.after.response == r.data)
  {
  }

  /** A flush reports success exactly when the write succeeded and the read
      either filled the report or returned nothing at all. */
  lemma FlushStatusOk(s: Snapshot)
    requires Ready(s)
    ensures Flush(s).status == RESPONSE_OK
        <==> FirstWrite(s.writeResults) >= 0
             && (FirstRead(s.readReplies).count == MAX_USB_BUFFER_BYTE_SIZE || FirstRead(s.readReplies).count == 0)
  {
  }

  /** Success does not mean the packets were taken: after a read that timed
      out, the flush reports success while the count still claims the packets
      whose bytes it has already cleared. */
  lemma TimedOutReadReportsSuccess(s: Snapshot)
    requires Ready(s) && s.count > 0
    requires FirstWrite(s.writeResults) >= 0 && FirstRead(s.readReplies).count == 0
    ensures Flush(s).status == RESPONSE_OK
    ensures Flush(s).after.count == s.count && Flush(s).after.cursor == s.cursor
    ensures CountPackets(Flush(s).after.pending) == s.count
    ensures Serialize(Flush(s).after.pending) == Zeros(s.cursor - PACKET_OFFSET)
  {
    var ps := Flush(s).after.pending;
    assert ps == [] + [ps[0]];
    SerializeSnoc([], ps[0]);
  }

  /** The flush the short-read log message asks for: a read that returns
      fewer bytes than a report is a failure. A read that timed out with
      nothing reports RESPONSE_PACKET_SIZE_ERROR; every other case, and the
      state left behind, is as in `Flush`. */
  function FlushChecked(s: Snapshot): (o: Outcome)
    requires Ready(s)
    ensures Ready(o.after)
  {
    var w := FirstWrite(s.writeResults);
    var t := s.(writeResults := Rest(s.writeResults), sent := s.sent + [WireFrame(s.count, s.pending)]);
    if w < 0 then Outcome(t, w)
    else
      var o := Exchange(t);
      if FirstRead(s.readReplies).count == 0 then Outcome(o.after, RESPONSE_PACKET_SIZE_ERROR) else o
  }

  /** The checked flush reports success exactly when the write went through
      and the whole report came back, and then the buffer is empty again. It
      differs from the flush as written only in the status of a timed-out read. */
  lemma FlushCheckedStatus(s: Snapshot)
    requires Ready(s)
    ensures FlushChecked(s).status == RESPONSE_OK
        <==> FirstWrite(s.writeResults) >= 0 && FirstRead(s.readReplies).count == MAX_USB_BUFFER_BYTE_SIZE
    ensures FlushChecked(s).status == RESPONSE_OK
        ==> FlushChecked(s).after.pending == [] && FlushChecked(s).after.cursor == PACKET_OFFSET
            && FlushChecked(s).after.count == 0
    ensures FlushChecked(s).after == Flush(s).after
    ensures FlushChecked(s).status != Flush(s).status
        <==> FirstWrite(s.writeResults) >= 0 && FirstRead(s.readReplies).count == 0
  {
  }

  /** The read-back copies exactly `ceil(bitLength / 8)` bytes from the start
      of the response, and only after a flush that reported success. */
  lemma RetrieveCopies(s: Snapshot, bitLength: nat)
    requires Ready(s) && BytesForBits(bitLength) <= MAX_USB_BUFFER_BYTE_SIZE
    ensures var r := Retrieve(s, bitLength);
      && r.outcome == Flush(Append(s, ReadTdoPacket()))
      && (r.captured.Some? <==> r.outcome.status == RESPONSE_OK)
      && (r.captured.Some? ==> |r.captured.value| == BytesForBits(bitLength)
                               && r.captured.value == r.outcome.after.response[..BytesForBits(bitLength)])
  {
  }
}
