/**
 * The runtime packet vocabulary of `src/packet.rs`: the direction and stage
 * a packet belongs to, and the error a packet decoder reports.
 */
module Packet {
  import Wire

  /** Who sends the packet. */
  datatype Direction = Client | Server

  /** The connection stage the packet belongs to. */
  datatype Stage = Handshaking | Status | Login | Play

  /** The largest `u64` plus one. */
  const U64: nat := 0x1_0000_0000_0000_0000

  /** `u64`. */
  type u64 = x: nat | x < U64

  /** `DecodeError`: a failed primitive read, or an id the current group does not know. */
  datatype DecodeError =
    | TryRead(error: Wire.Error)
    | NonExistentPacket(direction: Direction, stage: Stage, id: u64)

  /** `From<types::Error> for DecodeError`: every primitive read error becomes `TryRead` of itself. */
  function FromError(e: Wire.Error): (r: DecodeError)
    ensures r.TryRead? && r.error == e
  {
    TryRead(e)
  }
}
