/** Protocol packets as `src/rude/protocol` declares them. */
module Packets {
  import opened Serial
  import opened Words

  type Byte = x: int | 0 <= x < 0x100

  type Payload = seq<Byte>

  /** `PacketType` is a C++ enumeration over a byte, so a decoded packet may hold any byte here. */
  const HANDSHAKE_INIT: Byte := 0x01
  const HANDSHAKE_ACK: Byte := 0x02
  const DATA: Byte := 0x10
  const ACK: Byte := 0x11
  const KEEPALIVE: Byte := 0x20
  const DISCONNECT: Byte := 0x30

  datatype Packet = Packet(
    kind: Byte, sequence: Seq16, ack: Seq16, ackBits: U32, channel: Byte, payload: Payload, crc: U32)

  datatype Option<+T> = None | Some(value: T)

  datatype Error =
    | ConnectionReset | Timeout | BadPacket | SendWindowFull | ChannelClosed | MessageTooLarge
    | OperationAborted | SocketError(code: int)

  datatype Result<+T> = Ok(value: T) | Err(error: Error)
}
