/** Bytes, as every codec of the project reads and writes them. */
module ByteValues {
  type Byte = x: int | 0 <= x < 256
}
