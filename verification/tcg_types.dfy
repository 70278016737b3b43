/** The constants of include/jcu-dparm/tcg/tcg_types.h. */
module TcgTypes {
  import opened DparmTypes

  const MAX_BUFFER_LENGTH: nat := 61440
  const MIN_BUFFER_LENGTH: nat := 2048

  // Packet layout: ComPacket (20 bytes), packet (24 bytes) and data subpacket (12 bytes) headers.
  const COM_PACKET_SIZE: nat := 20
  const PACKET_SIZE: nat := 24
  const HEADER_SIZE: nat := 56
  const AT_COM_ID: nat := 4
  const AT_OUTSTANDING: nat := 8
  const AT_MIN_TRANSFER: nat := 12
  const AT_COM_LENGTH: nat := 16
  const AT_TSN: nat := 20
  const AT_HSN: nat := 24
  const AT_PACKET_LENGTH: nat := 40
  const AT_SUBPACKET_LENGTH: nat := 52

  const STARTLIST: uint8 := 0xf0
  const ENDLIST: uint8 := 0xf1
  const STARTNAME: uint8 := 0xf2
  const ENDNAME: uint8 := 0xf3
  const CALL: uint8 := 0xf8
  const ENDOFDATA: uint8 := 0xf9
  const ENDOFSESSION: uint8 := 0xfa
  const EMPTYATOM: uint8 := 0xff

  // What TcgTokenVO::type reports for atoms.
  const TOKENID_BYTESTRING: uint8 := 0xe0
  const TOKENID_SINT: uint8 := 0xe1
  const TOKENID_UINT: uint8 := 0xe2

  const BYTESTRING8: uint8 := 0xa8
}
