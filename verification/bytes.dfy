/** Octets, the unit of the varint and base64 layers of the card token. */
module Bytes {

  type byte = b: int | 0 <= b < 256
}
