/** Buffers of bytes. */
module ByteStrings {
  type Byte = b: nat | b < 256
  type Bytes = seq<Byte>
}
