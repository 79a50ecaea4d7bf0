/** The framing of packets inside one transaction buffer: the canonical
    encoding of a packet, the stores the framer actually performs, and the
    arithmetic of payload padding, cursor alignment and bit-to-byte counts. */
module Wire {
  import opened Bytes
  import opened Api2

  datatype Option<T> = None | Some(value: T)

  // ---------------------------------------------------------------------------
  // Canonical encoding

  /** The 12-byte preamble: start code, opcode, address high/low halves and
      length high/low halves, each half a little-endian 16-bit word. */
  function Header(opcode: uint16, address: uint32, length: nat): (r: seq<uint8>)
    ensures |r| == PACKET_HEADER_PREAMBLE_LENGTH
  {
    Le16(PACKET_START_CODE) + Le16(opcode)
    + Le16(address / 0x1_0000) + Le16(address % 0x1_0000)
    + Le16(length / 0x1_0000) + Le16(length % 0x1_0000)
  }

  datatype HeaderFields = HeaderFields(start: uint16, opcode: uint16, address: uint32, length: uint32)

  /** How the probe reads a preamble back. */
  function DecodeHeader(h: seq<uint8>): HeaderFields
    requires |h| >= PACKET_HEADER_PREAMBLE_LENGTH
  {
    HeaderFields(Get16(h, 0), Get16(h, 2), Get16(h, 4) * 0x1_0000 + Get16(h, 6), Get16(h, 8) * 0x1_0000 + Get16(h, 10))
  }

  /** Decoding a preamble gives back what was encoded, for every 32-bit address and length. */
  lemma {:induction false} HeaderRoundTrip(opcode: uint16, address: uint32, length: uint32)
    ensures DecodeHeader(Header(opcode, address, length)) == HeaderFields(PACKET_START_CODE, opcode, address, length)
  {
    var h := Header(opcode, address, length);
    WordAt(h, 0, PACKET_START_CODE);
    WordAt(h, 2, opcode);
    WordAt(h, 4, address / 0x1_0000);
    WordAt(h, 6, address % 0x1_0000);
    WordAt(h, 8, length / 0x1_0000);
    WordAt(h, 10, length % 0x1_0000);
    Halves(address);
    Halves(length);
  }

  /** A 32-bit value is its high half times 2^16 plus its low half. */
  lemma Halves(x: uint32)
    ensures (x / 0x1_0000) % 0x1_0000 * 0x1_0000 + (x % 0x1_0000) % 0x1_0000 == x
  {
    assert x / 0x1_0000 < 0x1_0000;
  }

  /** The word read back at `off` is the word stored there. */
  lemma WordAt(h: seq<uint8>, off: nat, v: nat)
    requires off + 2 <= |h| && h[off..off + 2] == Le16(v)
    ensures Get16(h, off) == v % 0x1_0000
  {
    assert h[off] == Le16(v)[0] && h[off + 1] == Le16(v)[1];
    Get16OfLe16(v);
  }

  /** One framed packet: opcode, target address (0 means none), payload and padding. */
  datatype Packet = Packet(opcode: uint16, address: uint32, body: seq<uint8>, padding: nat)

  /** Preamble, payload, zero padding and the zero CRC slot. */
  function PacketBytes(p: Packet): (r: seq<uint8>)
    ensures |r| == PACKET_HEADER_TOTAL_LENGTH + |p.body| + p.padding
  {
    Header(p.opcode, p.address, |p.body| + p.padding) + p.body + Zeros(p.padding + PACKET_HEADER_POSTAMBLE_LENGTH)
  }

  /** The payload the framer places: the caller's bytes, or zeros when it passes none. */
  function Body(buf: Option<seq<uint8>>, packetLength: nat): (r: seq<uint8>)
    requires buf.Some? ==> packetLength <= |buf.value|
    ensures |r| == packetLength
  {
    if buf.Some? then buf.value[..packetLength] else Zeros(packetLength)
  }

  /** An atomic JTAG packet: simplified header, two payload bytes, 16 bytes in all. */
  function AtomicPacket(opcode: uint16, data0: uint8, data1: uint8): Packet
  {
    Packet(opcode, 0, [data0, data1], 0)
  }

  /** The packed atomic structure and the generic framing agree on its bytes. */
  lemma PacketAtomicIsFramed(opcode: uint16, data0: uint8, data1: uint8)
    ensures PacketAtomicBytes(Atomic(opcode, data0, data1)) == PacketBytes(AtomicPacket(opcode, data0, data1))
  {
  }

  // ---------------------------------------------------------------------------
  // What the framer actually stores

  /** A `uint16_t` store of `v` at byte offset `off`. */
  function Put16(s: seq<uint8>, off: nat, v: nat): (r: seq<uint8>)
    requires off + 2 <= |s|
    ensures |r| == |s|
  {
    s[off := v % 0x100][off + 1 := (v / 0x100) % 0x100]
  }

  /** The C expression `x & 0xfffff` on an unsigned value. */
  function Mask20(x: nat): nat
  {
    x % 0x10_0000
  }

  /** `memcpy(&s[off], src, |src|)`. */
  function CopyTo(s: seq<uint8>, off: nat, src: seq<uint8>): (r: seq<uint8>)
    requires off + |src| <= |s|
    ensures |r| == |s|
  {
    s[..off] + src + s[off + |src|..]
  }

  /** The six stores of the full header at cursor `c`. */
  function FullHeaderWrites(s: seq<uint8>, c: nat, packetType: uint16, targetAddress: uint32, packetLength: nat): (r: seq<uint8>)
    requires c + PACKET_HEADER_PREAMBLE_LENGTH <= |s|
    ensures |r| == |s|
  {
    var s1 := Put16(s, c, PACKET_START_CODE);
    var s2 := Put16(s1, c + 2, packetType);
    var s3 := Put16(s2, c + 4, targetAddress / 0x1_0000);
    var s4 := Put16(s3, c + 6, Mask20(targetAddress));
    var s5 := Put16(s4, c + 8, packetLength / 0x1_0000);
    Put16(s5, c + 10, Mask20(packetLength))
  }

  /** The three stores of the simplified header: start code, opcode and the low length word. */
  function SimplifiedHeaderWrites(s: seq<uint8>, c: nat, packetType: uint16, packetLength: nat): (r: seq<uint8>)
    requires c + PACKET_HEADER_PREAMBLE_LENGTH <= |s|
    ensures |r| == |s|
  {
    Put16(Put16(Put16(s, c, PACKET_START_CODE), c + 2, packetType), c + 10, Mask20(packetLength))
  }

  /** The payload copy of an append: only a caller buffer is copied. */
  function PayloadWrites(s: seq<uint8>, c: nat, buf: Option<seq<uint8>>, packetLength: nat): (r: seq<uint8>)
    requires c + PACKET_HEADER_PREAMBLE_LENGTH + packetLength <= |s|
    requires buf.Some? ==> packetLength <= |buf.value|
    ensures |r| == |s|
  {
    if buf.Some? then CopyTo(s, c + PACKET_HEADER_PREAMBLE_LENGTH, buf.value[..packetLength]) else s
  }

  /** The header of an append: the full one for a target address, the simplified one otherwise. */
  function HeaderWrites(s: seq<uint8>, c: nat, opcode: uint16, targetAddress: uint32, packetLength: nat): (r: seq<uint8>)
    requires c + PACKET_HEADER_PREAMBLE_LENGTH <= |s|
    ensures |r| == |s|
  {
    if targetAddress != 0 then FullHeaderWrites(s, c, opcode, targetAddress, packetLength)
    else SimplifiedHeaderWrites(s, c, opcode, packetLength)
  }

  /** Everything one append stores: the payload copy and then the header, whose
      length word counts payload and padding. Padding and CRC are never stored. */
  function AppendWrites(s: seq<uint8>, c: nat, opcode: uint16, buf: Option<seq<uint8>>, packetLength: nat,
                        paddingBytes: nat, targetAddress: uint32): (r: seq<uint8>)
    requires c + PACKET_HEADER_TOTAL_LENGTH + packetLength + paddingBytes <= |s|
    requires buf.Some? ==> packetLength <= |buf.value|
    ensures |r| == |s|
  {
    HeaderWrites(PayloadWrites(s, c, buf, packetLength), c, opcode, targetAddress, packetLength + paddingBytes)
  }

  /** Storing through the 20-bit mask into a 16-bit word keeps the low 16 bits. */
  lemma Mask20Store(x: nat)
    ensures Le16(Mask20(x)) == Le16(x % 0x1_0000)
  {
    var q, m := x / 0x10_0000, x % 0x10_0000;
    assert x == 0x1_0000 * (0x10 * q + m / 0x1_0000) + m % 0x1_0000;
    assert x % 0x1_0000 == m % 0x1_0000;
    Le16Mod(m);
  }

  /** A 16-bit store right after an already-written prefix `w` extends that prefix. */
  lemma Put16Extends(s: seq<uint8>, c: nat, w: seq<uint8>, t: seq<uint8>, v: nat)
    requires c + |w| + 2 <= |s|
    requires t == s[..c] + w + s[c + |w|..]
    ensures Put16(t, c + |w|, v) == s[..c] + (w + Le16(v)) + s[c + |w| + 2..]
  {
    var r := Put16(t, c + |w|, v);
    var e := s[..c] + (w + Le16(v)) + s[c + |w| + 2..];
    assert |r| == |e|;
    forall i | 0 <= i < |r| ensures r[i] == e[i] {
      if i < c { assert r[i] == s[i]; }
      else if i < c + |w| { assert r[i] == w[i - c]; }
      else if i >= c + |w| + 2 { assert r[i] == s[i]; }
    }
  }

  /** Bytes a writer skips extend the prefix when they already hold `w`'s continuation. */
  lemma SkipExtends(s: seq<uint8>, c: nat, w: seq<uint8>, t: seq<uint8>, k: nat)
    requires c + |w| + k <= |s|
    requires t == s[..c] + w + s[c + |w|..]
    ensures t == s[..c] + (w + s[c + |w|..c + |w| + k]) + s[c + |w| + k..]
  {
    assert s[c + |w|..] == s[c + |w|..c + |w| + k] + s[c + |w| + k..];
  }

  /** The full header's stores lay down exactly the canonical preamble and touch nothing else. */
  lemma FullHeaderWritesHeader(s: seq<uint8>, c: nat, packetType: uint16, targetAddress: uint32, packetLength: nat)
    requires c + PACKET_HEADER_PREAMBLE_LENGTH <= |s|
    ensures FullHeaderWrites(s, c, packetType, targetAddress, packetLength)
         == s[..c] + Header(packetType, targetAddress, packetLength) + s[c + PACKET_HEADER_PREAMBLE_LENGTH..]
  {
    Mask20Store(targetAddress);
    Mask20Store(packetLength);
    assert s == s[..c] + [] + s[c..];
    var w0: seq<uint8> := [];
    Put16Extends(s, c, w0, s, PACKET_START_CODE);
    var w1 := w0 + Le16(PACKET_START_CODE);
    var s1 := Put16(s, c, PACKET_START_CODE);
    Put16Extends(s, c, w1, s1, packetType);
    var w2 := w1 + Le16(packetType);
    var s2 := Put16(s1, c + 2, packetType);
    Put16Extends(s, c, w2, s2, targetAddress / 0x1_0000);
    var w3 := w2 + Le16(targetAddress / 0x1_0000);
    var s3 := Put16(s2, c + 4, targetAddress / 0x1_0000);
    Put16Extends(s, c, w3, s3, Mask20(targetAddress));
    var w4 := w3 + Le16(Mask20(targetAddress));
    var s4 := Put16(s3, c + 6, Mask20(targetAddress));
    Put16Extends(s, c, w4, s4, packetLength / 0x1_0000);
    var w5 := w4 + Le16(packetLength / 0x1_0000);
    var s5 := Put16(s4, c + 8, packetLength / 0x1_0000);
    Put16Extends(s, c, w5, s5, Mask20(packetLength));
    assert w5 + Le16(Mask20(packetLength)) == Header(packetType, targetAddress, packetLength);
  }

  /** The simplified header stores bytes 0-3 and 10-11 of the preamble and
      leaves the address words and the high length word as they were. */
  lemma SimplifiedHeaderLayout(s: seq<uint8>, c: nat, packetType: uint16, packetLength: nat)
    requires c + PACKET_HEADER_PREAMBLE_LENGTH <= |s|
    ensures SimplifiedHeaderWrites(s, c, packetType, packetLength)
         == s[..c] + (Le16(PACKET_START_CODE) + Le16(packetType) + s[c + 4..c + 10] + Le16(Mask20(packetLength)))
            + s[c + PACKET_HEADER_PREAMBLE_LENGTH..]
  {
    assert s == s[..c] + [] + s[c..];
    var w0: seq<uint8> := [];
    Put16Extends(s, c, w0, s, PACKET_START_CODE);
    var w1 := w0 + Le16(PACKET_START_CODE);
    var s1 := Put16(s, c, PACKET_START_CODE);
    Put16Extends(s, c, w1, s1, packetType);
    var w2 := w1 + Le16(packetType);
    var s2 := Put16(s1, c + 2, packetType);
    SkipExtends(s, c, w2, s2, 6);
    var w3 := w2 + s[c + 4..c + 10];
    Put16Extends(s, c, w3, s2, Mask20(packetLength));
  }

  /** With the skipped words zero and a length below 65536, the simplified
      header's bytes are the canonical preamble with no address. */
  lemma SimplifiedIsCanonical(packetType: uint16, skipped: seq<uint8>, packetLength: nat)
    requires |skipped| == 6 && forall i :: 0 <= i < 6 ==> skipped[i] == 0
    requires packetLength < 0x1_0000
    ensures Le16(PACKET_START_CODE) + Le16(packetType) + skipped + Le16(Mask20(packetLength)) == Header(packetType, 0, packetLength)
  {
    assert skipped == Le16(0) + Le16(0) + Le16(0);
    assert Mask20(packetLength) == packetLength % 0x1_0000 == packetLength;
  }

  /** With the skipped bytes already zero and a length below 65536, the
      simplified header yields the canonical preamble with no address. */
  lemma SimplifiedHeaderWritesHeader(s: seq<uint8>, c: nat, packetType: uint16, packetLength: nat)
    requires c + PACKET_HEADER_PREAMBLE_LENGTH <= |s|
    requires forall i :: c + 4 <= i < c + 10 ==> s[i] == 0
    requires packetLength < 0x1_0000
    ensures SimplifiedHeaderWrites(s, c, packetType, packetLength)
         == s[..c] + Header(packetType, 0, packetLength) + s[c + PACKET_HEADER_PREAMBLE_LENGTH..]
  {
    SimplifiedHeaderLayout(s, c, packetType, packetLength);
    SimplifiedIsCanonical(packetType, s[c + 4..c + 10], packetLength);
  }

  /** After the payload step of an append (a copy, or nothing) the bytes past the
      preamble hold the body, and the cursor's preamble bytes are still zero. */
  lemma PayloadStep(s: seq<uint8>, c: nat, buf: Option<seq<uint8>>, packetLength: nat)
    requires c + PACKET_HEADER_PREAMBLE_LENGTH + packetLength <= |s|
    requires buf.Some? ==> packetLength <= |buf.value|
    requires ZeroFrom(s, c)
    ensures var s1 := PayloadWrites(s, c, buf, packetLength);
      && s1[..c] == s[..c]
      && s1[c + PACKET_HEADER_PREAMBLE_LENGTH..] == Body(buf, packetLength) + s[c + PACKET_HEADER_PREAMBLE_LENGTH + packetLength..]
      && (forall i :: c <= i < c + PACKET_HEADER_PREAMBLE_LENGTH ==> s1[i] == 0)
  {
    var p := c + PACKET_HEADER_PREAMBLE_LENGTH;
    if buf.None? {
      assert s[p..] == s[p..p + packetLength] + s[p + packetLength..];
      assert s[p..p + packetLength] == Zeros(packetLength);
    }
  }

  /** The zero-reuse optimisation is sound: when every byte from the cursor on is
      zero, an append leaves exactly the canonical packet at the cursor, whichever
      header it chose and whether or not it copied a payload. */
  lemma AppendWritesFrame(s: seq<uint8>, c: nat, opcode: uint16, buf: Option<seq<uint8>>, packetLength: nat,
                          paddingBytes: nat, targetAddress: uint32)
    requires c + PACKET_HEADER_TOTAL_LENGTH + packetLength + paddingBytes <= |s|
    requires buf.Some? ==> packetLength <= |buf.value|
    requires packetLength + paddingBytes < 0x1_0000
    requires ZeroFrom(s, c)
    ensures var n := PACKET_HEADER_TOTAL_LENGTH + packetLength + paddingBytes;
      AppendWrites(s, c, opcode, buf, packetLength, paddingBytes, targetAddress)
        == s[..c] + PacketBytes(Packet(opcode, targetAddress, Body(buf, packetLength), paddingBytes)) + s[c + n..]
  {
    AppendWritesSplice(s, c, opcode, buf, packetLength, paddingBytes, targetAddress);
    FramedSplice(s, c, Packet(opcode, targetAddress, Body(buf, packetLength), paddingBytes));
  }

  /** A header and a body laid over a zero tail are the whole canonical packet:
      the padding and CRC slot it leaves unwritten already hold zeros. */
  lemma FramedSplice(s: seq<uint8>, c: nat, p: Packet)
    requires c + |PacketBytes(p)| <= |s|
    requires ZeroFrom(s, c)
    ensures s[..c] + Header(p.opcode, p.address, |p.body| + p.padding)
            + (p.body + s[c + PACKET_HEADER_PREAMBLE_LENGTH + |p.body|..])
         == s[..c] + PacketBytes(p) + s[c + |PacketBytes(p)|..]
  {
    var e := c + |PacketBytes(p)|;
    var a := c + PACKET_HEADER_PREAMBLE_LENGTH + |p.body|;
    TailSplit(s, a, e);
    Regroup(s[..c], Header(p.opcode, p.address, |p.body| + p.padding), p.body, s[a..e], s[e..]);
  }

  /** An append over a zero tail leaves the canonical header followed by the
      body, and the rest of the buffer as it was. */
  lemma AppendWritesSplice(s: seq<uint8>, c: nat, opcode: uint16, buf: Option<seq<uint8>>, packetLength: nat,
                           paddingBytes: nat, targetAddress: uint32)
    requires c + PACKET_HEADER_TOTAL_LENGTH + packetLength + paddingBytes <= |s|
    requires buf.Some? ==> packetLength <= |buf.value|
    requires packetLength + paddingBytes < 0x1_0000
    requires ZeroFrom(s, c)
    ensures AppendWrites(s, c, opcode, buf, packetLength, paddingBytes, targetAddress)
         == s[..c] + Header(opcode, targetAddress, packetLength + paddingBytes)
            + (Body(buf, packetLength) + s[c + PACKET_HEADER_PREAMBLE_LENGTH + packetLength..])
  {
    var s1 := PayloadWrites(s, c, buf, packetLength);
    PayloadStep(s, c, buf, packetLength);
    HeaderStep(s1, c, opcode, targetAddress, packetLength + paddingBytes);
  }

  /** The header of an append over a zeroed preamble is the canonical header. */
  lemma HeaderStep(s1: seq<uint8>, c: nat, opcode: uint16, targetAddress: uint32, len: nat)
    requires c + PACKET_HEADER_PREAMBLE_LENGTH <= |s1|
    requires forall i :: c <= i < c + PACKET_HEADER_PREAMBLE_LENGTH ==> s1[i] == 0
    requires len < 0x1_0000
    ensures HeaderWrites(s1, c, opcode, targetAddress, len)
         == s1[..c] + Header(opcode, targetAddress, len) + s1[c + PACKET_HEADER_PREAMBLE_LENGTH..]
  {
    if targetAddress != 0 {
      FullHeaderWritesHeader(s1, c, opcode, targetAddress, len);
    } else {
      SimplifiedHeaderWritesHeader(s1, c, opcode, len);
    }
  }

  /** A zero span followed by the rest. */
  lemma TailSplit(s: seq<uint8>, a: nat, b: nat)
    requires a <= b <= |s|
    requires ZeroFrom(s, a)
    ensures s[a..] == s[a..b] + s[b..]
    ensures s[a..b] == Zeros(b - a)
  {
  }

  lemma Regroup(a: seq<uint8>, b: seq<uint8>, c: seq<uint8>, d: seq<uint8>, e: seq<uint8>)
    ensures a + b + (c + (d + e)) == a + (b + c + d) + e
  {
  }

  // ---------------------------------------------------------------------------
  // Padding, alignment, byte counts

  /** Bytes needed for `bitLength` bits: `(bit_length + 7) / 8`. */
  function BytesForBits(bitLength: nat): (n: nat)
    ensures 8 * n >= bitLength && 8 * n < bitLength + 8
  {
    (bitLength + 7) / 8
  }

  /** The data-register payload padding: `16 - n % 16` when that remainder is non-zero. */
  function Padding16(n: nat): (p: nat)
    ensures p < 16 && (n + p) % 16 == 0
    ensures p == (16 - n % 16) % 16
  {
    if n % 16 != 0 then 16 - n % 16 else 0
  }

  /** The cursor round-up after a bulk data packet. */
  function AlignUp4(c: nat): (r: nat)
    ensures r % PACKET_OFFSET == 0 && c <= r < c + PACKET_OFFSET
    ensures c <= MAX_USB_BUFFER_BYTE_SIZE ==> r <= MAX_USB_BUFFER_BYTE_SIZE
  {
    if c % PACKET_OFFSET != 0 then c + (PACKET_OFFSET - c % PACKET_OFFSET) else c
  }

  /** AlignUp4 gives the least multiple of four at or above its argument. */
  lemma AlignUp4Least(c: nat, m: nat)
    requires m % PACKET_OFFSET == 0 && c <= m
    ensures AlignUp4(c) <= m
  {
  }

  /** Padding makes a data-register payload of at most the largest shift a
      multiple of 16 bytes, and the largest shift needs none. */
  lemma {:induction false} PaddedPayloadBound(bitLength: nat)
    requires 16 < bitLength <= MAX_BITS_TO_SHIFT
    ensures var n := BytesForBits(bitLength);
      n + Padding16(n) <= 512 && (n + Padding16(n)) % 16 == 0
  {
    var n := BytesForBits(bitLength);
    assert n <= 512;
    var q := n / 16;
    if n % 16 != 0 {
      assert n == 16 * q + n % 16;
      assert q < 32;
      assert n + Padding16(n) == 16 * (q + 1);
    }
  }

  // ---------------------------------------------------------------------------
  // The buffered transaction

  /** What lies between the packet-count word and the cursor: framed packets,
      alignment gaps, or a span a failed read already wiped whose packets the
      count still claims. */
  datatype Chunk = Framed(packet: Packet) | Gap(size: nat) | Wiped(size: nat, packets: nat)

  function ChunkBytes(ch: Chunk): (r: seq<uint8>)
  {
    match ch
    case Framed(p) => PacketBytes(p)
    case Gap(n) => Zeros(n)
    case Wiped(n, _) => Zeros(n)
  }

  function ChunkPackets(ch: Chunk): nat
  {
    match ch
    case Framed(_) => 1
    case Gap(_) => 0
    case Wiped(_, k) => k
  }

  function Serialize(cs: seq<Chunk>): seq<uint8>
  {
    if cs == [] then [] else Serialize(cs[..|cs| - 1]) + ChunkBytes(cs[|cs| - 1])
  }

  function CountPackets(cs: seq<Chunk>): nat
  {
    if cs == [] then 0 else CountPackets(cs[..|cs| - 1]) + ChunkPackets(cs[|cs| - 1])
  }

  /** The full report a flush writes: the count, truncated to a byte, in byte 0
      of the count word, the chunks from byte 4, zeros to the end. */
  function WireFrame(count: nat, cs: seq<Chunk>): (r: seq<uint8>)
    ensures PACKET_OFFSET + |Serialize(cs)| <= MAX_USB_BUFFER_BYTE_SIZE ==> |r| == MAX_USB_BUFFER_BYTE_SIZE
  {
    var body := Serialize(cs);
    var fill := if PACKET_OFFSET + |body| <= MAX_USB_BUFFER_BYTE_SIZE then MAX_USB_BUFFER_BYTE_SIZE - PACKET_OFFSET - |body| else 0;
    [count % 0x100, 0, 0, 0] + body + Zeros(fill)
  }

  lemma SerializeSnoc(cs: seq<Chunk>, ch: Chunk)
    ensures Serialize(cs + [ch]) == Serialize(cs) + ChunkBytes(ch)
    ensures CountPackets(cs + [ch]) == CountPackets(cs) + ChunkPackets(ch)
  {
    assert (cs + [ch])[..|cs|] == cs;
  }

  /** A buffer whose count word is clear beyond byte 0, whose chunks follow it,
      and whose tail is zero is exactly the wire frame once byte 0 holds the count. */
  lemma FrameLayout(s: seq<uint8>, c: nat, count: uint8, cs: seq<Chunk>)
    requires |s| == MAX_USB_BUFFER_BYTE_SIZE && PACKET_OFFSET <= c <= |s|
    requires s[1] == 0 && s[2] == 0 && s[3] == 0
    requires s[PACKET_OFFSET..c] == Serialize(cs)
    requires ZeroFrom(s, c)
    ensures PACKET_OFFSET + |Serialize(cs)| <= MAX_USB_BUFFER_BYTE_SIZE
    ensures s[0 := count] == WireFrame(count, cs)
  {
    var body := Serialize(cs);
    assert |body| == c - PACKET_OFFSET;
    var head: seq<uint8> := [count % 0x100, 0, 0, 0];
    var f := head + body + Zeros(MAX_USB_BUFFER_BYTE_SIZE - c);
    assert f == WireFrame(count, cs);
    var t := s[0 := count];
    forall i | 0 <= i < |s| ensures t[i] == f[i] {
      if i < PACKET_OFFSET {
        assert f[i] == head[i];
      } else if i < c {
        assert f[i] == body[i - PACKET_OFFSET];
        assert s[i] == s[PACKET_OFFSET..c][i - PACKET_OFFSET];
      } else {
        assert f[i] == Zeros(MAX_USB_BUFFER_BYTE_SIZE - c)[i - c];
      }
    }
    assert t == f;
  }
}
