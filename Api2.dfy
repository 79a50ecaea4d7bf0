/** Wire-format constants and packed structure layouts of the eFP6
    revision B programmer (the API header shared by both host drivers). */
module Api2 {
  import opened Bytes

  const MICROSEMI_VID: uint16 := 0x1514
  const PID: uint16 := 0x200b
  const MAX_USB_BUFFER_BYTE_SIZE: nat := 1024
  const MAX_BITS_TO_SHIFT: nat := 4096

  const SET_TCK_FREQUENCY: uint8 := 0
  const READ_TCK_FREQUENCY: uint8 := 1

  // TAP states, as the atomic operation expects them
  const JTAG_RESET: uint16 := 15
  const JTAG_IDLE: uint16 := 12
  const JTAG_SHIFT_DR: uint16 := 2
  const JTAG_PAUSE_DR: uint16 := 3
  const JTAG_UPDATE_DR: uint16 := 5
  const JTAG_SHIFT_IR: uint16 := 10
  const JTAG_PAUSE_IR: uint16 := 11
  const JTAG_UPDATE_IR: uint16 := 13

  // Programmer opcodes
  const PACKET_START_CODE: uint16 := 0x01
  const SEND_PACKET_OPCODE: uint16 := 0x11
  const READ_TCK_OPCODE: uint16 := 0x25
  const FREQUENCY_INTERRUPT_OPCODE: uint16 := 0x30
  const INSERT_WAIT_CYCLES_OPCODE: uint16 := 0x31
  const ENABLE_JTAG_PORT_OPCODE: uint16 := 0x32
  const DISABLE_JTAG_PORT_OPCODE: uint16 := 0x33
  const SET_JTAG_PINS_OPCODE: uint16 := 0x34
  const GET_JTAG_PINS_OPCODE: uint16 := 0x35
  const JTAG_ATOMIC_OPCODE: uint16 := 0x2A
  const SET_SHIFT_IR_DR_BIT_LENGTH_OPCODE: uint16 := 0x2C
  const READ_TDO_BUFFER_COMMAND_OPCODE: uint16 := 0x2F
  const SHIFT_DATA_FROM_REGISTER: uint16 := 0x2D
  const SHIFT_DATA_FROM_DDR: uint16 := 0x2E
  const TURN_ACTIVITY_LED_ON: uint16 := 0x41
  const TURN_ACTIVITY_LED_OFF: uint16 := 0x42
  const CM3_FW_VERSION_OPCODE: uint16 := 0xC0

  // Discrete JTAG pins
  const TDI_BIT: uint8 := 0x1
  const TMS_BIT: uint8 := 0x2
  const TRSTB_BIT: uint8 := 0x4

  // Transaction layout
  const PACKET_OFFSET: nat := 4
  const PACKET_HEADER_OPCODE_OFFSET: nat := 2
  const PACKET_HEADER_PREAMBLE_LENGTH: nat := 10 + PACKET_HEADER_OPCODE_OFFSET
  const PACKET_HEADER_POSTAMBLE_LENGTH: nat := 2
  const PACKET_HEADER_TOTAL_LENGTH: nat := PACKET_HEADER_PREAMBLE_LENGTH + PACKET_HEADER_POSTAMBLE_LENGTH

  const PAYLOAD_ATOMIC_PACKET_LENGTH: nat := 16
  const ATOMIC_JTAG_OPERATION_PACKET_LENGTH: nat := 2

  const TARGET_FREQUENCY_ADDRESS: uint32 := 0xA0FF_FFF0

  const RESPONSE_PACKET_SIZE_ERROR: int := -100
  const RESPONSE_DEVICE_OPEN_ERROR: int := -101
  const RESPONSE_BITS_SIZE_ERROR: int := -102
  const RESPONSE_OK: int := 0

  /** `efp6_2_packet_atomic`: a packed 16-byte packet carrying two data bytes. */
  datatype PacketAtomic = PacketAtomic(
    packetStart: uint16,
    packetType: uint16,
    address: uint32,
    lenHigh: uint16,
    lenLow: uint16,
    data0: uint8,
    data1: uint8,
    crc: uint16)

  /** `efp6_2_IR_scan`: the four atomic packets of an instruction-register scan. */
  datatype IrScanBlock = IrScanBlock(setLen: PacketAtomic, data: PacketAtomic, shift: PacketAtomic, endState: PacketAtomic)

  /** Memory image of a packed atomic packet on a little-endian host. */
  function PacketAtomicBytes(p: PacketAtomic): (r: seq<uint8>)
    ensures |r| == PAYLOAD_ATOMIC_PACKET_LENGTH
    ensures r[12] == p.data0 && r[13] == p.data1
  {
    Le16(p.packetStart) + Le16(p.packetType)
    + Le16(p.address % 0x1_0000) + Le16(p.address / 0x1_0000)
    + Le16(p.lenHigh) + Le16(p.lenLow)
    + [p.data0, p.data1] + Le16(p.crc)
  }

  /** Memory image of the IR scan block: its four packets back to back. */
  function IrScanBytes(b: IrScanBlock): (r: seq<uint8>)
    ensures |r| == 4 * PAYLOAD_ATOMIC_PACKET_LENGTH
  {
    PacketAtomicBytes(b.setLen) + PacketAtomicBytes(b.data)
    + PacketAtomicBytes(b.shift) + PacketAtomicBytes(b.endState)
  }

  /** An atomic packet as the static initialiser of the IR scan block writes it:
      start code, opcode, no address, two bytes of payload, no CRC. */
  function Atomic(opcode: uint16, data0: uint8, data1: uint8): PacketAtomic
  {
    PacketAtomic(PACKET_START_CODE, opcode, 0, 0, ATOMIC_JTAG_OPERATION_PACKET_LENGTH, data0, data1, 0)
  }

  /** The IR scan block after the four per-scan assignments: bit length in the
      set-length packet, the two output bytes, and the end state. */
  function IrScanTemplate(bitLength: uint8, out0: uint8, out1: uint8, endState: uint8): IrScanBlock
  {
    IrScanBlock(
      Atomic(SET_SHIFT_IR_DR_BIT_LENGTH_OPCODE, bitLength, 0),
      Atomic(SHIFT_DATA_FROM_REGISTER, out0, out1),
      Atomic(JTAG_ATOMIC_OPCODE, JTAG_SHIFT_IR, 0),
      Atomic(JTAG_ATOMIC_OPCODE, endState, 0))
  }

  /** Byte offsets of the four bytes the IR scan rewrites on every call. */
  const IR_SET_LEN_DATA0: nat := 12
  const IR_DATA_DATA0: nat := 16 + 12
  const IR_DATA_DATA1: nat := 16 + 13
  const IR_END_STATE_DATA0: nat := 48 + 12

  /** `t` is the memory image of the IR scan block, whatever its four variable bytes hold. */
  ghost predicate IsIrTemplate(t: seq<uint8>)
  {
    |t| == 4 * PAYLOAD_ATOMIC_PACKET_LENGTH
    && t == IrScanBytes(IrScanTemplate(t[IR_SET_LEN_DATA0], t[IR_DATA_DATA0], t[IR_DATA_DATA1], t[IR_END_STATE_DATA0]))
  }
}
