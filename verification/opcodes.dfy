/** The BDM command bytes of the HCS08/RS08 background debug protocol, as
    bdm.h defines them (one byte each, sent most significant bit first). */
module Opcodes {
  import opened Numeric

  // Execution control
  const ACK_ENABLE: Byte := 0xD5
  const ACK_DISABLED: Byte := 0xD6
  const BACKGROUND: Byte := 0x90
  const GO: Byte := 0x08
  const TRACE1: Byte := 0x10
  const TAGGO: Byte := 0x18

  // Register reads
  const READ_A: Byte := 0x68
  const READ_CCR: Byte := 0x69
  const READ_PC: Byte := 0x6B
  const READ_HX: Byte := 0x6C
  const READ_SP: Byte := 0x6F
  const READ_NEXT: Byte := 0x70
  const READ_NEXT_WS: Byte := 0x71

  // Register writes
  const WRITE_A: Byte := 0x48
  const WRITE_CCR: Byte := 0x49
  const WRITE_PC: Byte := 0x4B
  const WRITE_HX: Byte := 0x4C
  const WRITE_SP: Byte := 0x4F
  const WRITE_NEXT: Byte := 0x50
  const WRITE_NEXT_WS: Byte := 0x51

  // Status, control and memory access
  const READ_STATUS: Byte := 0xE4
  const WRITE_CONTROL: Byte := 0xC4
  const READ_BYTE: Byte := 0xE0
  const READ_BYTE_WS: Byte := 0xE1
  const READ_LAST: Byte := 0xE8
  const WRITE_BYTE: Byte := 0xC0
  const WRITE_BYTE_WS: Byte := 0xC1
  const READ_BKPT: Byte := 0xE2
  const WRITE_BKPT: Byte := 0xC2

  /** Every command byte the header defines. */
  const Defined: set<Byte> := {
    ACK_ENABLE, ACK_DISABLED, BACKGROUND, GO, TRACE1, TAGGO,
    READ_A, READ_CCR, READ_PC, READ_HX, READ_SP, READ_NEXT, READ_NEXT_WS,
    WRITE_A, WRITE_CCR, WRITE_PC, WRITE_HX, WRITE_SP, WRITE_NEXT, WRITE_NEXT_WS,
    READ_STATUS, WRITE_CONTROL, READ_BYTE, READ_BYTE_WS, READ_LAST,
    WRITE_BYTE, WRITE_BYTE_WS, READ_BKPT, WRITE_BKPT
  }
}
