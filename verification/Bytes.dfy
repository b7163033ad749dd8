/** Bytes and byte strings, shared by every module.

    A C++ `std::string` is a sequence of bytes, and so are keys, field names and
    the buffers of the serializer.
 */
module Bytes {
  type byte = x: int | 0 <= x < 256

  type Str = seq<byte>

  const TWO64: nat := 0x1_0000_0000_0000_0000

  /** The keys of the store. */
  type Key = Str
}
